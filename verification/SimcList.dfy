/** simclist's list_t: a sequence kept in doubly linked nodes, with the middle node, the number of
    nodes and a pool of spare nodes cached beside it. */
module SimcList {
  import opened ListNodes
  import opened ListSort

  const MAX_SPARE_ELEMS := 5

  datatype Comparator = NoComparator | Comparator(cmp: (Elem, Elem) -> int)

  /** What list_delete_range does: its two return values, or a null pointer dereference. */
  datatype Outcome = Done | Refused | Fault

  datatype Edit = InsertAt(data: Elem, pos: nat) | ExtractAt(pos: nat) | DeleteAt(pos: nat)
                | DeleteRange(posstart: nat, posend: nat) | Clear | Sort(versus: int)

  /** What an edit returns. */
  datatype Answer = Code(r: int) | Datum(data: Elem) | Ranged(outcome: Outcome)

  /** What a refused one does. */
  function Refusal(edit: Edit): (answer: Answer) {
    match edit
    case ExtractAt(_) => Datum(NULL)
    case DeleteRange(_, _) => Ranged(Refused)
    case _ => Code(-1)
  }

  function Refusals(edits: seq<Edit>): (answers: seq<Answer>) {
    if edits == [] then [] else Refusals(edits[..|edits| - 1]) + [Refusal(edits[|edits| - 1])]
  }

  function AtStep(edits: seq<seq<Edit>>, k: nat): (es: seq<Edit>) {
    if k < |edits| then edits[k] else []
  }

  /** The position that the middle pointer caches, in the nodes with their sentinels. */
  function MidIndex(n: nat): (m: nat)
    requires n > 0
    ensures 1 <= m <= n
  {
    1 + (n - 1) / 2
  }

  ghost predicate MidOk(mid: Node?, ns: seq<Node>)
    requires |ns| >= 2
  {
    mid == if |ns| == 2 then null else ns[MidIndex(|ns| - 2)]
  }

  /** The spare nodes are few, and no part of the list. */
  ghost predicate SpareOk(spare: seq<Node>, ns: seq<Node>) {
    |spare| <= 5 && Distinct(spare) && forall x :: x in spare ==> x !in ns
  }

  /** The pool after nodes from..to have left the list. */
  lemma SpareKept(spare: seq<Node>, ns: seq<Node>, from: nat, to: nat)
    requires SpareOk(spare, ns) && from <= to <= |ns| && Distinct(ns)
    ensures SpareOk(Kept(spare + ns[from..to]), Without(ns, from, to))
  {
    hide Without;
    DistinctWithout(ns, from, to);
    var seg := ns[from..to];
    var all := spare + seg;
    forall i, j | 0 <= i < j < |all|
      ensures all[i] != all[j]
    {
      if i < |spare| <= j {
        assert all[i] in spare && all[j] == ns[from + (j - |spare|)];
      } else if |spare| <= i {
        assert all[i] == ns[from + (i - |spare|)] && all[j] == ns[from + (j - |spare|)];
      }
    }
    assert forall x :: x in Kept(all) ==> x in all;
    var rest := Without(ns, from, to);
    forall i | 0 <= i < |rest|
      ensures rest[i] in ns
    {
      assert rest[i] == ns[if i < from then i else i + (to - from)];
    }
  }

  lemma SaveOne(spare: seq<Node>, ns: seq<Node>, p: nat)
    requires SpareOk(spare, ns) && p < |ns| && Linked(ns)
    ensures SpareOk(Kept(spare + [ns[p]]), Without(ns, p, p + 1)) && |spare| <= 5
  {
    hide Distinct, Without, Kept;
    assert ns[p..p + 1] == [ns[p]];
    SpareKept(spare, ns, p, p + 1);
  }

  lemma SparePopped(spare: seq<Node>, ns: seq<Node>)
    requires SpareOk(spare, ns) && spare != []
    ensures var n := |spare| - 1; SpareOk(spare[..n], ns) && spare[n] !in spare[..n] && spare[n] !in ns
  {
  }

  lemma SpareInserted(spare: seq<Node>, ns: seq<Node>, p: nat, x: Node)
    requires SpareOk(spare, ns) && x !in spare && p <= |ns|
    ensures SpareOk(spare, Inserted(ns, p, x))
  {
  }

  /** The pool keeps what it has room for. */
  function Kept(s: seq<Node>): (r: seq<Node>)
    ensures |r| <= 5
  {
    if |s| <= 5 then s else s[..5]
  }

  class List {
    var head: Node
    var tail: Node
    var mid: Node?
    var numels: nat
    var spareels: seq<Node>
    var iterActive: bool
    var iterPos: nat
    var iterCurentry: Node?
    var comparator: Comparator
    ghost var nodes: seq<Node>
    ghost var elems: seq<Elem>

    ghost predicate Shape()
      reads `head, `tail, `numels, `nodes, `elems
    {
      && |elems| == numels && |nodes| == numels + 2 && head == nodes[0] && tail == nodes[numels + 1]
    }

    ghost predicate IterOk()
      requires |nodes| == numels + 2
      reads `iterActive, `iterPos, `iterCurentry, `numels, `nodes
    {
      iterActive ==> iterPos <= numels + 1 && iterCurentry == if iterPos <= numels then nodes[iterPos + 1] else null
    }

    ghost predicate Valid()
      reads this, nodes
    {
      && Shape() && Linked(nodes) && MidOk(mid, nodes) && SpareOk(spareels, nodes) && IterOk()
      && Holds(nodes, elems)
    }

    constructor ()
      ensures Valid() && fresh(nodes)
      ensures elems == [] && spareels == [] && !iterActive && comparator == NoComparator
    {
      hide Linked, MidOk, SpareOk, Holds;
      var h, t := NewSentinels();
      head, tail, mid, numels := h, t, null, 0;
      iterActive, iterPos, iterCurentry := false, 0, null;
      spareels, comparator, nodes := [], NoComparator, [h, t];
      elems := [];
      new;
    }

    /** list_init, on a list that is there already. */
    method Init()
      modifies this
      ensures Valid() && fresh(nodes)
      ensures elems == [] && spareels == [] && !iterActive && comparator == NoComparator
    {
      hide Linked, MidOk, SpareOk, Holds;
      var h, t := NewSentinels();
      SetAll(h, t);
    }

    method SetAll(h: Node, t: Node)
      modifies this
      ensures head == h && tail == t && mid == null && numels == 0
      ensures !iterActive && iterPos == 0 && iterCurentry == null
      ensures spareels == [] && comparator == NoComparator && nodes == [h, t] && elems == []
    {
      head, tail, mid, numels := h, t, null, 0;
      iterActive, iterPos, iterCurentry := false, 0, null;
      spareels, comparator, nodes := [], NoComparator, [h, t];
      elems := [];
    }

    /** list_findpos: every position has its own way to be reached, from the sentinel or the
        middle next to it. */
    method FindPos(posstart: int) returns (ptr: Node?)
      requires Valid()
      ensures ptr == if -1 <= posstart <= numels then nodes[posstart + 1] else null
    {
      hide SpareOk, IterOk;
      if posstart < -1 || posstart > numels { return null; }
      if numels == 0 {
        ptr := Leftward(tail, numels, posstart, nodes);
        return;
      }
      var x := (posstart + 1) as real / numels as real;
      Quarters(posstart, numels);
      if x <= 0.25 {
        ptr := Rightward(head, -1, posstart, nodes);
      } else if x < 0.5 {
        ptr := Leftward(mid, (numels - 1) / 2, posstart, nodes);
      } else if x <= 0.75 {
        ptr := Rightward(mid, (numels - 1) / 2, posstart, nodes);
      } else {
        ptr := Leftward(tail, numels, posstart, nodes);
      }
    }

    /** list_get_at */
    method GetAt(pos: nat) returns (data: Elem)
      requires Valid()
      ensures data == if pos < numels then elems[pos] else NULL
    {
      var tmp := FindPos(pos);
      return if tmp != null then tmp.data else NULL;
    }

    /** A node for a new datum: a spare one, or a new one. */
    method TakeNode(data: Elem) returns (lent: Node)
      requires Valid()
      modifies this`spareels, spareels
      ensures Valid() && lent !in nodes && lent !in spareels && lent.data == data
      ensures fresh(lent) || lent in old(spareels)
      ensures spareels == if old(spareels) == [] then [] else old(spareels)[..|old(spareels)| - 1]
    {
      hide Linked, MidOk, SpareOk;
      if |spareels| > 0 {
        SparePopped(spareels, nodes);
        lent := spareels[|spareels| - 1];
        spareels := spareels[..|spareels| - 1];
        lent.data := data;
      } else {
        lent := new Node(data);
      }
    }

    /** list_insert_at */
    method InsertAt(data: Elem, pos: nat) returns (r: int)
      requires Valid()
      modifies this`mid, this`numels, this`spareels, this`nodes, this`elems, nodes, spareels
      ensures Valid() && forall x :: x in nodes ==> fresh(x) || x in old(nodes) || x in old(spareels)
      ensures r == if iterActive || pos > old(numels) then -1 else 1
      ensures r == -1 ==> unchanged(this) && unchanged(nodes)
      ensures r == 1 ==> elems == Inserted(old(elems), pos, data) && Without(nodes, pos + 1, pos + 2) == old(nodes)
      ensures r == 1 ==> spareels == if old(spareels) == [] then [] else old(spareels)[..|old(spareels)| - 1]
    {
      hide Linked, MidOk, SpareOk, Holds, Inserted, Without;
      if iterActive || pos > numels { return -1; }
      Insert(data, pos);
      r := 1;
    }

    method Insert(data: Elem, pos: nat)
      requires Valid() && !iterActive && pos <= numels
      modifies this`mid, this`numels, this`spareels, this`nodes, this`elems, nodes, spareels
      ensures Valid() && forall x :: x in nodes ==> fresh(x) || x in old(nodes) || x in old(spareels)
      ensures elems == Inserted(old(elems), pos, data) && Without(nodes, pos + 1, pos + 2) == old(nodes)
      ensures spareels == if old(spareels) == [] then [] else old(spareels)[..|old(spareels)| - 1]
    {
      hide Linked, MidOk, SpareOk, Holds, IterOk, Inserted, Without;
      var lent := TakeNode(data);
      InsertedFacts(nodes, pos + 1, lent);
      var prec := FindPos(pos - 1);
      PutIn(lent, prec, pos);
    }

    /** The node goes behind prec, and the middle pointer follows. */
    method PutIn(lent: Node, prec: Node, pos: nat)
      requires Valid() && !iterActive && pos <= numels && prec == nodes[pos] && lent !in nodes && lent !in spareels
      modifies this`mid, this`numels, this`nodes, this`elems, lent`next, lent`prev, nodes`next, nodes`prev
      ensures Valid() && nodes == Inserted(old(nodes), pos + 1, lent)
      ensures elems == Inserted(old(elems), pos, lent.data)
    {
      hide Linked, MidOk, SpareOk, Holds, IterOk, Inserted, Without;
      InsertedFacts(nodes, pos + 1, lent);
      SpareInserted(spareels, nodes, pos + 1, lent);
      HookIn(lent, prec, pos);
      FixMidInserted(lent, pos);
      Idle();
    }

    lemma Idle()
      requires |nodes| == numels + 2 && !iterActive
      ensures IterOk()
    {
    }

    /** The new node goes in between two others. */
    method HookIn(lent: Node, prec: Node, pos: nat)
      requires Linked(nodes) && Holds(nodes, elems) && pos <= |elems| && |nodes| == |elems| + 2
      requires prec == nodes[pos] && lent !in nodes
      modifies this`nodes, this`elems, this`numels, lent`next, lent`prev, nodes`next, nodes`prev
      ensures Linked(nodes) && Holds(nodes, elems) && numels == old(numels) + 1
      ensures nodes == Inserted(old(nodes), pos + 1, lent) && elems == Inserted(old(elems), pos, lent.data)
    {
      hide Linked, Inserted, Holds;
      NextOf(nodes, pos);
      HoldsInserted(nodes, elems, pos, lent);
      var succ := prec.next;
      LinkIn(prec, succ, lent, nodes, pos + 1);
      nodes, elems := Inserted(nodes, pos + 1, lent), Inserted(elems, pos, lent.data);
      numels := numels + 1;
    }

    /** The middle pointer follows an insertion. */
    method FixMidInserted(lent: Node, pos: nat)
      requires Shape() && Linked(nodes) && pos < numels && nodes[pos + 1] == lent
      requires MidOk(mid, Without(nodes, pos + 1, pos + 2))
      modifies this`mid
      ensures MidOk(mid, nodes)
    {
      if numels == 1 {
        mid := lent;
        return;
      }
      ghost var m := MidIndex(numels - 1);
      ghost var k := if m < pos + 1 then m else m + 1;
      assert mid == nodes[k];
      NextOf(nodes, k);
      if numels % 2 == 1 {
        if pos >= (numels - 1) / 2 { mid := mid.next; }
      } else {
        if pos <= (numels - 1) / 2 { mid := mid.prev; }
      }
    }

    /** list_extract_at */
    method ExtractAt(pos: nat) returns (data: Elem)
      requires Valid()
      modifies this`mid, this`numels, this`spareels, this`nodes, this`elems, nodes
      ensures Valid()
      ensures iterActive || pos >= old(numels) ==> data == NULL && unchanged(this) && unchanged(nodes)
      ensures !iterActive && pos < old(numels) ==>
                && data == old(elems[pos]) && elems == Without(old(elems), pos, pos + 1)
                && nodes == Without(old(nodes), pos + 1, pos + 2)
                && spareels == Kept(old(spareels + [nodes[pos + 1]]))
    {
      hide Linked, MidOk, SpareOk, Without, Kept;
      if iterActive || pos >= numels { return NULL; }
      var tmp := FindPos(pos);
      data := tmp.data;
      Apart(nodes, elems, pos);
      tmp.data := NULL;
      DropElem(tmp, pos);
      Shrink(pos);
    }

    /** list_delete_at */
    method DeleteAt(pos: nat) returns (r: int)
      requires Valid()
      modifies this`mid, this`numels, this`spareels, this`nodes, this`elems, nodes`next, nodes`prev
      ensures Valid() && r == if iterActive || pos >= old(numels) then -1 else 0
      ensures r == -1 ==> unchanged(this) && unchanged(nodes)
      ensures r == 0 ==>
                && elems == Without(old(elems), pos, pos + 1) && nodes == Without(old(nodes), pos + 1, pos + 2)
                && spareels == Kept(old(spareels + [nodes[pos + 1]]))
    {
      hide Linked, MidOk, SpareOk, Without, Kept;
      if iterActive || pos >= numels { return -1; }
      var delendo := FindPos(pos);
      Apart(nodes, elems, pos);
      DropElem(delendo, pos);
      Shrink(pos);
      r := 0;
    }

    /** numels-- */
    method Shrink(ghost pos: nat)
      requires pos < numels == |elems|
      modifies this`numels, this`elems
      ensures numels == old(numels) - 1 && elems == Without(old(elems), pos, pos + 1)
    {
      elems := Without(elems, pos, pos + 1);
      numels := numels - 1;
    }

    /** list_drop_elem */
    method DropElem(tmp: Node, pos: nat)
      requires Shape() && Linked(nodes) && MidOk(mid, nodes) && SpareOk(spareels, nodes)
      requires pos < numels && tmp == nodes[pos + 1]
      modifies this`mid, this`spareels, this`nodes, nodes`next, nodes`prev
      ensures Linked(nodes) && MidOk(mid, nodes) && SpareOk(spareels, nodes)
      ensures nodes == Without(old(nodes), pos + 1, pos + 2)
      ensures spareels == Kept(old(spareels) + [tmp])
    {
      hide Linked, MidOk, SpareOk, Without, Kept;
      SaveOne(spareels, nodes, pos + 1);
      FixMidDropping(pos);
      Unhook(tmp, pos);
      Save(tmp);
    }

    method Unhook(tmp: Node, ghost pos: nat)
      requires Linked(nodes) && pos + 2 < |nodes| && tmp == nodes[pos + 1]
      modifies this`nodes, nodes`next, nodes`prev
      ensures Linked(nodes) && nodes == Without(old(nodes), pos + 1, pos + 2)
    {
      hide Linked, Without;
      NextOf(nodes, pos + 1);
      LinkOut(tmp.prev, tmp.next, nodes, pos + 1, pos + 2);
      nodes := Without(nodes, pos + 1, pos + 2);
    }

    /** The middle pointer ahead of a deletion. */
    method FixMidDropping(pos: nat)
      requires Shape() && Linked(nodes) && pos < numels && MidOk(mid, nodes)
      modifies this`mid
      ensures MidOk(mid, Without(nodes, pos + 1, pos + 2))
    {
      NextOf(nodes, MidIndex(numels));
      if numels % 2 == 1 {
        if numels == 1 {
          mid := null;
        } else if pos >= numels / 2 {
          mid := mid.prev;
        }
      } else {
        if pos < numels / 2 { mid := mid.next; }
      }
    }

    /** list_delete_range */
    method DeleteRange(posstart: nat, posend: nat) returns (r: Outcome)
      requires Valid() && numels < 0x4000_0000
      modifies this`mid, this`numels, this`spareels, this`nodes, this`elems, nodes`next, nodes`prev
      ensures r == if iterActive || posend < posstart || posend >= old(numels) then Refused
                   else if posend - posstart + 1 == old(numels) then Fault else Done
      ensures r == Refused ==> unchanged(this) && unchanged(nodes)
      ensures r == Done ==>
                && Valid() && elems == Without(old(elems), posstart, posend + 1)
                && nodes == Without(old(nodes), posstart + 1, posend + 2)
                && spareels == Kept(old(spareels + nodes[posstart + 1..posend + 2]))
    {
      hide Linked, MidOk, SpareOk, Without, Kept, Holds, MidMove;
      if iterActive || posend < posstart || posend >= numels { return Refused; }
      var tmp := FindPos(posstart);
      var ok := MoveMid(posstart, posend);
      if !ok { return Fault; }
      RemoveRange(tmp, posstart, posend);
      r := Done;
    }

    /** The middle pointer goes to where it will be. */
    method MoveMid(posstart: nat, posend: nat) returns (ok: bool)
      requires Shape() && Linked(nodes) && MidOk(mid, nodes) && posstart <= posend < numels < 0x4000_0000
      modifies this`mid
      ensures ok <==> posend - posstart + 1 < numels
      ensures ok ==> MidOk(mid, Without(nodes, posstart + 1, posend + 2))
    {
      hide Linked, MidMove, ToInt32, Without;
      MidMoveLands(numels, posstart, posend);
      MidAfterGap(nodes, posstart, posend);
      var movedx := Movedx(posstart, posend);
      ok := WalkMid(movedx, MidIndex(numels));
    }

    method Movedx(posstart: nat, posend: nat) returns (movedx: int)
      requires posstart <= posend < numels
      ensures movedx == MidMove(numels, posstart, posend)
    {
      hide ToInt32;
      var numdel := posend - posstart + 1;
      var midposafter := (numels - 1 - numdel) % 0x1_0000_0000 / 2;
      midposafter := if midposafter < posstart then midposafter else (midposafter + numdel) % 0x1_0000_0000;
      movedx := ToInt32(midposafter - (numels - 1) / 2);
    }

    /** The middle pointer moves by movedx nodes, if there are so many. */
    method WalkMid(movedx: int, ghost m: nat) returns (ok: bool)
      requires |nodes| == numels + 2 && Linked(nodes) && m <= numels + 1 && mid == nodes[m]
      modifies this`mid
      ensures ok <==> -1 <= m + movedx <= numels + 2
      ensures 0 <= m + movedx <= numels + 1 ==> mid == nodes[m + movedx]
    {
      var i := 0;
      ok := true;
      while i < movedx
        invariant 0 <= i && (movedx > 0 ==> i <= movedx) && (movedx <= 0 ==> i == 0) && m + i <= numels + 2
        invariant mid == if m + i == numels + 2 then null else nodes[m + i]
        decreases movedx - i
      {
        if mid == null { return false; }
        NextOf(nodes, m + i);
        mid := mid.next;
        i := i + 1;
      }
      if movedx > 0 { return; }
      while i < -movedx
        invariant 0 <= i <= -movedx && m - i >= -1
        invariant mid == if m - i == -1 then null else nodes[m - i]
      {
        if mid == null { return false; }
        NextOf(nodes, m - i);
        mid := mid.prev;
        i := i + 1;
      }
    }

    /** The nodes posstart..posend go to the pool, and the list closes over the gap. */
    method RemoveRange(first: Node, posstart: nat, posend: nat)
      requires Shape() && Linked(nodes) && SpareOk(spareels, nodes) && Holds(nodes, elems) && !iterActive
      requires posstart <= posend < numels && posend - posstart + 1 < numels && first == nodes[posstart + 1]
      requires MidOk(mid, Without(nodes, posstart + 1, posend + 2))
      modifies this`numels, this`spareels, this`nodes, this`elems, nodes`next, nodes`prev
      ensures Valid() && elems == Without(old(elems), posstart, posend + 1)
      ensures nodes == Without(old(nodes), posstart + 1, posend + 2)
      ensures spareels == Kept(old(spareels + nodes[posstart + 1..posend + 2]))
    {
      hide Linked, MidOk, SpareOk, Without, Kept, Holds;
      RangeFacts(nodes, elems, spareels, posstart, posend + 1);
      NextOf(nodes, posstart + 1);
      var lastvalid := first.prev;
      var tmp := SaveRange(first, posstart, posend);
      LinkOut(lastvalid, tmp, nodes, posstart + 1, posend + 2);
      nodes, elems := Without(nodes, posstart + 1, posend + 2), Without(elems, posstart, posend + 1);
      numels := numels - (posend - posstart + 1);
    }

    /** The loop that frees the nodes of a range. */
    method SaveRange(first: Node, posstart: nat, posend: nat) returns (tmp: Node)
      requires Shape() && Linked(nodes) && SpareOk(spareels, nodes)
      requires posstart <= posend < numels && first == nodes[posstart + 1]
      modifies this`spareels
      ensures tmp == nodes[posend + 2] && spareels == Kept(old(spareels) + nodes[posstart + 1..posend + 2])
    {
      hide Linked, Kept;
      ghost var sp := spareels;
      tmp := first;
      KeptStart(sp, nodes, posstart + 1);
      var i := posstart;
      while i <= posend
        invariant posstart <= i <= posend + 1 && tmp == nodes[i + 1] && |spareels| <= 5
        invariant spareels == Kept(sp + nodes[posstart + 1..i + 1])
      {
        var tmp2 := tmp;
        NextOf(nodes, i + 1);
        tmp := tmp.next;
        KeptNext(sp, nodes, posstart + 1, i + 1);
        Save(tmp2);
        i := i + 1;
      }
    }

    /** list_clear */
    method Clear() returns (r: int)
      requires Valid()
      modifies this`mid, this`numels, this`spareels, this`nodes, this`elems, nodes`next, nodes`prev
      ensures Valid() && r == if iterActive then -1 else 0
      ensures r == -1 ==> unchanged(this) && unchanged(nodes)
      ensures r == 0 ==> elems == [] && nodes == [head, tail] && head == old(head) && tail == old(tail)
      ensures r == 0 ==> spareels == Kept(old(spareels + nodes[1..numels + 1]))
    {
      hide Linked, MidOk, SpareOk, Without, Kept, Holds;
      if iterActive { return -1; }
      EmptyFacts(nodes, elems, spareels);
      SaveAll();
      LinkOut(head, tail, nodes, 1, numels + 1);
      nodes, elems := [head, tail], [];
      numels := 0;
      mid := null;
      r := 0;
    }

    /** The two loops of list_clear: one fills the pool, the other frees what is left. */
    method SaveAll()
      requires Shape() && Linked(nodes) && SpareOk(spareels, nodes)
      modifies this`spareels
      ensures spareels == Kept(old(spareels) + nodes[1..numels + 1])
    {
      hide Linked, Kept, SpareOk;
      ghost var sp := spareels;
      var s; ghost var i;
      s, i := FillPool();
      KeptFull(sp, nodes, i);
      while s != tail
        invariant 1 <= i <= numels + 1 && s == nodes[i] && spareels == Kept(sp + nodes[1..numels + 1])
        decreases numels - i
      {
        LastOnly(nodes, i);
        NextOf(nodes, i);
        s := s.next;
        i := i + 1;
      }
    }

    method FillPool() returns (s: Node, ghost i: nat)
      requires Shape() && Linked(nodes) && SpareOk(spareels, nodes)
      modifies this`spareels
      ensures 1 <= i <= numels + 1 && s == nodes[i] && spareels == old(spareels) + nodes[1..i]
      ensures |spareels| <= 5 && (|spareels| == 5 || i == numels + 1)
    {
      hide Linked;
      ghost var sp := spareels;
      NextOf(nodes, 0);
      s, i := head.next, 1;
      while |spareels| < MAX_SPARE_ELEMS && s != tail
        invariant 1 <= i <= numels + 1 && s == nodes[i] && |spareels| <= 5
        invariant spareels == sp + nodes[1..i]
        decreases numels - i
      {
        LastOnly(nodes, i);
        NextOf(nodes, i);
        assert sp + nodes[1..i + 1] == sp + nodes[1..i] + [s];
        spareels := spareels + [s];
        s := s.next;
        i := i + 1;
      }
      LastOnly(nodes, i);
    }

    /** list_sort: the data change places between nodes that keep theirs. */
    method Sort(versus: int) returns (r: int)
      requires Valid()
      modifies this`elems, nodes`data
      ensures Valid() && r == if iterActive || comparator == NoComparator then -1 else 0
      ensures r == -1 ==> unchanged(this) && unchanged(nodes)
      ensures multiset(elems) == multiset(old(elems))
      ensures r == 0 && TotalPreorder(comparator.cmp) ==> SortedIn(comparator.cmp, versus, elems, 0, numels)
    {
      hide Linked, Holds, MidOk, SpareOk, PermutedIn, SortedIn, TotalPreorder;
      if iterActive || comparator == NoComparator { return -1; }
      if numels <= 1 {
        NothingOutOfOrder(comparator.cmp, versus, elems);
        return 0;
      }
      NextOf(nodes, 0);
      NextOf(nodes, numels + 1);
      ghost var out := Quicksort(comparator.cmp, versus, 0, head.next, numels - 1, tail.prev, nodes, elems);
      WholePermuted(elems, out);
      elems := out;
      r := 0;
    }

    /** list_iterator_start */
    method IteratorStart() returns (r: bool)
      requires Valid()
      modifies this`iterActive, this`iterPos, this`iterCurentry
      ensures Valid() && r == !old(iterActive) && iterActive
      ensures if r then iterPos == 0 else unchanged(this)
    {
      hide MidOk, SpareOk, Holds;
      if iterActive { return false; }
      NextOf(nodes, 0);
      iterPos := 0;
      iterActive := true;
      iterCurentry := head.next;
      r := true;
    }

    /** list_iterator_next. Past the end it hands out what the tail sentinel holds, once. */
    method IteratorNext() returns (data: Elem)
      requires Valid() && (iterActive ==> iterPos <= numels)
      modifies this`iterPos, this`iterCurentry
      ensures Valid() && if iterActive then iterPos == old(iterPos) + 1 else unchanged(this)
      ensures data == if iterActive && old(iterPos) < numels then elems[old(iterPos)] else NULL
    {
      hide MidOk, SpareOk;
      if !iterActive { return NULL; }
      NextOf(nodes, iterPos + 1);
      data := iterCurentry.data;
      assert iterPos < numels ==> nodes[iterPos + 1].data == elems[iterPos];
      iterCurentry := iterCurentry.next;
      iterPos := iterPos + 1;
    }

    /** list_iterator_hasnext */
    method IteratorHasnext() returns (r: bool)
      requires Valid()
      ensures r == (iterActive && iterPos < numels)
    {
      r := iterActive && iterPos < numels;
    }

    /** list_iterator_stop */
    method IteratorStop() returns (r: bool)
      requires Valid()
      modifies this`iterActive, this`iterPos
      ensures Valid() && r == old(iterActive) && !iterActive
    {
      hide MidOk, SpareOk, Holds, Linked;
      if !iterActive { return false; }
      iterPos := 0;
      iterActive := false;
      r := true;
    }

    /** A whole iteration. Before every step, any number of edits is attempted; all of them are refused,
        so it yields exactly the sequence that it started on. */
    method Iterate(edits: seq<seq<Edit>>) returns (out: seq<Elem>, answers: seq<seq<Answer>>)
      requires Valid() && !iterActive && numels < 0x4000_0000
      modifies this, nodes, spareels
      ensures Valid() && !iterActive && out == old(elems) && elems == old(elems) && nodes == old(nodes)
      ensures |answers| == numels && forall k :: 0 <= k < |answers| ==> answers[k] == Refusals(AtStep(edits, k))
    {
      hide Linked, MidOk, SpareOk, Holds, Refusals;
      var _ := IteratorStart();
      out, answers := [], [];
      var more := IteratorHasnext();
      while more
        invariant Valid() && iterActive && iterPos <= numels && more == (iterPos < numels)
        invariant elems == old(elems) && nodes == old(nodes) && spareels == old(spareels) && out == elems[..iterPos]
        invariant |answers| == iterPos
        invariant forall k :: 0 <= k < |answers| ==> answers[k] == Refusals(AtStep(edits, k))
        decreases numels - iterPos
      {
        var answer := AttemptAll(AtStep(edits, iterPos));
        answers := answers + [answer];
        var data := IteratorNext();
        out := out + [data];
        more := IteratorHasnext();
      }
      var _ := IteratorStop();
    }

    /** Edits attempted one after the other during an iteration. */
    method AttemptAll(edits: seq<Edit>) returns (answers: seq<Answer>)
      requires Valid() && iterActive && numels < 0x4000_0000
      modifies this, nodes, spareels
      ensures Valid() && unchanged(this) && unchanged(nodes) && answers == Refusals(edits)
    {
      hide Linked, MidOk, SpareOk, Holds, IterOk, Refusal;
      answers := [];
      for i := 0 to |edits|
        invariant Valid() && unchanged(this) && unchanged(nodes) && answers == Refusals(edits[..i])
      {
        var answer := Attempt(edits[i]);
        assert edits[..i + 1][..i] == edits[..i];
        answers := answers + [answer];
      }
      assert edits[..|edits|] == edits;
    }

    /** An edit attempted during an iteration. */
    method Attempt(edit: Edit) returns (answer: Answer)
      requires Valid() && iterActive && numels < 0x4000_0000
      modifies this, nodes, spareels
      ensures Valid() && unchanged(this) && unchanged(nodes) && answer == Refusal(edit)
    {
      hide Linked, MidOk, SpareOk, Holds, IterOk;
      match edit {
        case InsertAt(data, pos) =>
          var r := InsertAt(data, pos);
          answer := Code(r);
        case ExtractAt(pos) =>
          var data := ExtractAt(pos);
          answer := Datum(data);
        case DeleteAt(pos) =>
          var r := DeleteAt(pos);
          answer := Code(r);
        case DeleteRange(posstart, posend) =>
          var r := DeleteRange(posstart, posend);
          answer := Ranged(r);
        case Clear =>
          var r := Clear();
          answer := Code(r);
        case Sort(versus) =>
          var r := Sort(versus);
          answer := Code(r);
      }
    }

    /** list_repOk holds of what the list should be, and only of that. */
    ghost predicate Represents(ns: seq<Node>)
      reads this, ns, head, tail
    {
      && head != tail && head.prev == null && tail.next == null && |spareels| <= 5
      && (numels == 0 ==> mid == null && head.next == tail && tail.prev == head)
      && (numels > 0 ==>
            && |ns| == numels + 2 && ns[numels + 1] == tail && mid == ns[MidIndex(numels)]
            && forall i, j :: 0 <= i && j == i + 1 && j < |ns| ==> ns[j].prev == ns[i])
    }

    /** list_repOk, on any chain of next pointers that ends. */
    method RepOk(ghost ns: seq<Node>) returns (ok: bool)
      requires NextChain(ns) && ns[0] == head
      ensures ok <==> Represents(ns)
    {
      ok := && head != tail && head.prev == null && tail.next == null
            && (numels > 0 || (mid == null && head.next == tail && tail.prev == head))
            && |spareels| <= MAX_SPARE_ELEMS;
      if !ok { return; }
      if numels >= 1 {
        var i, s := -1, head;
        while i < (numels - 1) / 2 && s.next != null
          invariant -1 <= i <= (numels - 1) / 2 && i + 1 < |ns| && s == ns[i + 1]
          invariant forall k, j :: 0 <= k && j == k + 1 && j <= i + 1 ==> ns[j].prev == ns[k]
        {
          NextInChain(ns, i + 1);
          if s.next.prev != s { break; }
          i, s := i + 1, s.next;
        }
        ok := i == (numels - 1) / 2 && mid == s;
        if !ok { NextInChain(ns, i + 1); return; }
        while s.next != null
          invariant (numels - 1) / 2 <= i && i + 1 < |ns| && s == ns[i + 1]
          invariant forall k, j :: 0 <= k && j == k + 1 && j <= i + 1 ==> ns[j].prev == ns[k]
          decreases |ns| - i
        {
          NextInChain(ns, i + 1);
          if s.next.prev != s { break; }
          i, s := i + 1, s.next;
        }
        NextInChain(ns, i + 1);
        ok := i == numels && s == tail;
      }
    }

    /** A valid list satisfies list_repOk. */
    lemma ValidRepresents()
      requires Valid()
      ensures NextChain(nodes) && nodes[0] == head && Represents(nodes)
    {
    }

    /** A node goes to the pool if there is room, and is freed otherwise. */
    method Save(tmp: Node)
      requires |spareels| <= 5
      modifies this`spareels
      ensures spareels == Kept(old(spareels) + [tmp])
    {
      if |spareels| < MAX_SPARE_ELEMS {
        spareels := spareels + [tmp];
      }
    }
  }

  /** A list in the making: a head sentinel and the nodes behind it. */
  ghost predicate Built(bs: seq<Node>, es: seq<Elem>)
    reads bs
  {
    && |bs| == |es| + 1 && Distinct(bs) && Chain(bs) && bs[0].prev == null && bs[0].data == NULL
    && forall i {:trigger es[i]} :: 0 <= i < |es| ==> bs[i + 1].data == es[i]
  }

  method AppendNode(last: Node, data: Elem, ghost bs: seq<Node>, ghost es: seq<Elem>) returns (el: Node)
    requires Built(bs, es) && last == bs[|bs| - 1]
    modifies last`next
    ensures fresh(el) && Built(bs + [el], es + [data])
  {
    el := new Node(data);
    last.next := el;
    el.prev := last;
  }

  /** The loop that copies a list behind what is built. */
  method CopyAfter(last: Node, l: List, ghost bs: seq<Node>, ghost es: seq<Elem>)
    returns (el: Node, ghost bs': seq<Node>)
    requires l.Valid() && Built(bs, es) && |bs| > 0 && last == bs[|bs| - 1] && forall x :: x in bs ==> x !in l.nodes
    modifies last`next
    ensures Built(bs', es + l.elems) && |bs'| == |bs| + l.numels && el == bs'[|bs'| - 1] && bs <= bs'
    ensures (forall x :: x in bs' ==> x in bs || fresh(x)) && (el == last || fresh(el))
  {
    hide Built, Linked, MidOk, SpareOk, Holds;
    el, bs' := last, bs;
    NextOf(l.nodes, 0);
    var srcel := l.head.next;
    ghost var i := 0;
    assert es + l.elems[..0] == es;
    while srcel != l.tail
      invariant 0 <= i <= l.numels && srcel == l.nodes[i + 1]
      invariant Linked(l.nodes) && Holds(l.nodes, l.elems)
      invariant |bs'| == |bs| + i && el == bs'[|bs'| - 1] && bs <= bs' && (el == last || fresh(el)) && el !in l.nodes
      invariant Built(bs', es + l.elems[..i])
      invariant forall x :: x in bs' ==> x in bs || fresh(x)
      decreases l.numels - i
    {
      LastOnly(l.nodes, i + 1);
      NextOf(l.nodes, i + 1);
      HeldAt(l.nodes, l.elems, i);
      el := AppendNode(el, srcel.data, bs', es + l.elems[..i]);
      bs' := bs' + [el];
      assert es + l.elems[..i + 1] == es + l.elems[..i] + [l.elems[i]];
      srcel := srcel.next;
      i := i + 1;
    }
    LastOnly(l.nodes, i + 1);
    assert l.elems[..i] == l.elems;
  }

  /** The tail sentinel completes the list. */
  method Close(el: Node, tail: Node, ghost bs: seq<Node>, ghost es: seq<Elem>)
    requires Built(bs, es) && el == bs[|bs| - 1] && tail !in bs && tail.next == null && tail.data == NULL
    modifies el`next, tail`prev
    ensures Linked(bs + [tail]) && Holds(bs + [tail], es)
  {
    el.next := tail;
    tail.prev := el;
  }

  /** list_concat */
  method Concat(l1: List?, l2: List?, dest: List?) returns (r: int)
    requires l1 != null ==> l1.Valid()
    requires l2 != null ==> l2.Valid()
    modifies if dest == null then {} else {dest}
    ensures r == if l1 == null || l2 == null || dest == null || l1 == dest || l2 == dest then -1 else 0
    ensures r == -1 && dest != null ==> unchanged(dest)
    ensures r == 0 ==>
              && dest.Valid() && dest.elems == l1.elems + l2.elems
              && (forall x :: x in dest.nodes ==> fresh(x)) && dest.spareels == [] && !dest.iterActive
    ensures r == 0 ==> l1.Valid() && l2.Valid()
  {
    hide Built, Linked, MidOk, SpareOk, Holds;
    if l1 == null || l2 == null || dest == null || l1 == dest || l2 == dest { return -1; }
    dest.Init();
    assert dest.head in dest.nodes && dest.tail in dest.nodes;
    if l1.numels + l2.numels == 0 {
      assert l1.elems + l2.elems == [];
      return 0;
    }
    BuildConcat(l1, l2, dest);
    assert forall x :: x in dest.nodes ==> fresh(x);
    FixMidConcat(l1.numels, l2.numels, dest);
    SpareEmpty(dest.nodes);
    r := 0;
  }

  lemma SpareEmpty(ns: seq<Node>)
    ensures SpareOk([], ns)
  {
  }

  /** The copies of both lists, and the last node of the first of them. */
  method CopyBoth(l1: List, l2: List, head: Node, ghost bs: seq<Node>)
    returns (el: Node, m: Node, ghost bs': seq<Node>)
    requires l1.Valid() && l2.Valid() && Built(bs, []) && bs == [head] && head !in l1.nodes && head !in l2.nodes
    modifies head`next
    ensures Built(bs', l1.elems + l2.elems) && |bs'| == l1.numels + l2.numels + 1
    ensures bs'[0] == head && el == bs'[|bs'| - 1] && m == bs'[l1.numels]
    ensures (forall x :: x in bs' ==> x == head || fresh(x)) && (el == head || fresh(el))
  {
    hide Built, Linked, MidOk, SpareOk, Holds;
    assert [] + l1.elems == l1.elems;
    m, bs' := CopyAfter(head, l1, bs, []);
    el, bs' := CopyAfter(m, l2, bs', l1.elems);
  }

  /** The copies between the sentinels; the middle pointer is on the last of the first list. */
  method BuildConcat(l1: List, l2: List, dest: List)
    requires l1.Valid() && l2.Valid() && dest.Valid() && dest.elems == [] && dest != l1 && dest != l2
    requires dest.head !in l1.nodes && dest.head !in l2.nodes
    modifies dest`numels, dest`mid, dest`nodes, dest`elems, dest.head`next, dest.tail`prev
    ensures dest.Shape() && Linked(dest.nodes) && Holds(dest.nodes, dest.elems)
    ensures dest.elems == l1.elems + l2.elems && dest.mid == dest.nodes[l1.numels]
    ensures forall x :: x in dest.nodes ==> x == dest.head || x == dest.tail || fresh(x)
  {
    hide Built, Linked, MidOk, SpareOk, Holds;
    BuiltStart(dest.nodes);
    var el, m; ghost var bs;
    el, m, bs := CopyBoth(l1, l2, dest.head, [dest.head]);
    Close(el, dest.tail, bs, l1.elems + l2.elems);
    SetConcat(dest, m, l1.numels + l2.numels, bs + [dest.tail], l1.elems + l2.elems);
  }

  method SetConcat(dest: List, m: Node, n: nat, ghost ns: seq<Node>, ghost es: seq<Elem>)
    modifies dest`numels, dest`mid, dest`nodes, dest`elems
    ensures dest.numels == n && dest.mid == m && dest.nodes == ns && dest.elems == es
  {
    dest.numels, dest.mid, dest.nodes, dest.elems := n, m, ns, es;
  }

  /** Division by two as C does it, towards zero. */
  function Half(a: int): int {
    if a >= 0 then a / 2 else -(-a / 2)
  }

  /** The middle pointer goes from the last node of the first list to the middle. */
  method FixMidConcat(n1: nat, n2: nat, dest: List)
    requires dest.Shape() && Linked(dest.nodes) && dest.numels == n1 + n2 > 0 && dest.mid == dest.nodes[n1]
    modifies dest`mid
    ensures MidOk(dest.mid, dest.nodes)
  {
    hide Linked;
    var err := n2 - n1;
    if Half(err + 1) > 0 {
      var _ := dest.WalkMid(Half(err + 1), n1);
    } else if Half(err) < 0 {
      var _ := dest.WalkMid(-Half(-err), n1);
    }
  }

  lemma BuiltStart(ns: seq<Node>)
    requires Linked(ns) && Holds(ns, [])
    ensures Built([ns[0]], []) && ns[1].next == null && ns[1].data == NULL && ns[0] != ns[1]
  {
  }

  /** The unsigned difference as the int that it is assigned to. */
  function ToInt32(x: int): int {
    var u := x % 0x1_0000_0000;
    if u < 0x8000_0000 then u else u - 0x1_0000_0000
  }

  /** By how much list_delete_range moves the middle pointer of n elements. */
  function MidMove(n: nat, posstart: nat, posend: nat): int {
    var numdel := posend - posstart + 1;
    var m := (n - 1 - numdel) % 0x1_0000_0000 / 2;
    ToInt32((if m < posstart then m else (m + numdel) % 0x1_0000_0000) - (n - 1) / 2)
  }

  lemma MidAfterGap(ns: seq<Node>, posstart: nat, posend: nat)
    requires posstart <= posend < |ns| - 2
    ensures |Without(ns, posstart + 1, posend + 2)| == |ns| - (posend - posstart + 1)
    ensures var numdel := posend - posstart + 1;
            numdel < |ns| - 2 ==>
              var m := MidIndex(|ns| - 2 - numdel);
              Without(ns, posstart + 1, posend + 2)[m] == ns[if m < posstart + 1 then m else m + numdel]
  {
  }

  /** The move ends on the new middle if an element is left, and far off the list otherwise, where
      the length of nothing less one has wrapped round. */
  lemma MidMoveLands(n: nat, posstart: nat, posend: nat)
    requires posstart <= posend < n < 0x4000_0000
    ensures var numdel, k := posend - posstart + 1, MidIndex(n) + MidMove(n, posstart, posend);
            if numdel == n then k < -1
            else k == var m := MidIndex(n - numdel); if m < posstart + 1 then m else m + numdel
  {
    hide ToInt32;
    var numdel := posend - posstart + 1;
    var h := (n - 1) / 2;
    if numdel == n {
      Wraps(0x7FFF_FFFF + n - h);
    } else {
      SmallMod(n - 1 - numdel);
      var m := (n - 1 - numdel) / 2;
      SmallMod(m + numdel);
      Wraps((if m < posstart then m else m + numdel) - h);
    }
  }

  lemma SmallMod(x: nat)
    requires x < 0x1_0000_0000
    ensures x % 0x1_0000_0000 == x
  {
  }

  lemma Wraps(x: int)
    requires -0x4000_0000 <= x <= 0xBFFF_FFFF
    ensures ToInt32(x) == if x < 0x8000_0000 then x else x - 0x1_0000_0000
  {
  }

  /** The sentinels of an empty list. */
  method NewSentinels() returns (h: Node, t: Node)
    ensures fresh(h) && fresh(t) && Linked([h, t]) && MidOk(null, [h, t]) && SpareOk([], [h, t])
    ensures Holds([h, t], [])
  {
    h := new Node(NULL);
    t := new Node(NULL);
    h.next := t;
    t.prev := h;
  }

  /** The quarters of list_findpos in whole numbers. */
  lemma Quarters(posstart: int, n: nat)
    requires n > 0
    ensures var x := (posstart + 1) as real / n as real;
            && (x <= 0.25 <==> 4 * (posstart + 1) <= n)
            && (x < 0.5 <==> 2 * (posstart + 1) < n)
            && (x <= 0.75 <==> 4 * (posstart + 1) <= 3 * n)
  {
    hide *;
    QuotientAtMost(posstart + 1, n, 1, 4);
    QuotientAtMost(posstart + 1, n, 1, 2);
    QuotientAtMost(posstart + 1, n, 3, 4);
  }

  lemma QuotientAtMost(p: int, n: nat, a: nat, b: nat)
    requires n > 0 && b > 0
    ensures p as real / n as real <= a as real / b as real <==> b * p <= a * n
    ensures p as real / n as real < a as real / b as real <==> b * p < a * n
  {
  }

  /** The node at pos is none of the others. */
  lemma Apart(ns: seq<Node>, elems: seq<Elem>, pos: nat)
    requires Linked(ns) && Holds(ns, elems) && pos < |elems|
    ensures ns[pos + 1] !in Without(ns, pos + 1, pos + 2)
    ensures Holds(Without(ns, pos + 1, pos + 2), Without(elems, pos, pos + 1))
    ensures Without(ns, pos + 1, pos + 2)[0] == ns[0] && Without(ns, pos + 1, pos + 2)[|elems|] == ns[|elems| + 1]
  {
  }

  /** next leads through ns to its end. */
  ghost predicate NextChain(ns: seq<Node>)
    reads ns`next
  {
    && |ns| > 0 && ns[|ns| - 1].next == null
    && forall i, j :: 0 <= i && j == i + 1 && j < |ns| ==> ns[i].next == ns[j]
  }

  lemma NextInChain(ns: seq<Node>, i: nat)
    requires NextChain(ns) && i < |ns|
    ensures ns[i].next == if i + 1 < |ns| then ns[i + 1] else null
  {
  }

  lemma NothingOutOfOrder(cmp: Cmp, versus: int, es: seq<Elem>)
    requires |es| <= 1
    ensures SortedIn(cmp, versus, es, 0, |es|)
  {
  }

  lemma WholePermuted(a: seq<Elem>, b: seq<Elem>)
    requires PermutedIn(a, b, 0, |a|)
    ensures |a| == |b| && multiset(a) == multiset(b)
  {
    assert a[0..|a|] == a && b[0..|b|] == b;
  }

  lemma LastOnly(ns: seq<Node>, i: nat)
    requires Linked(ns) && i < |ns|
    ensures ns[i] == ns[|ns| - 1] <==> i == |ns| - 1
  {
  }

  lemma KeptStart(sp: seq<Node>, ns: seq<Node>, p: nat)
    requires |sp| <= 5 && p <= |ns|
    ensures sp == Kept(sp + ns[p..p])
  {
  }

  lemma KeptFull(sp: seq<Node>, ns: seq<Node>, i: nat)
    requires 1 <= i < |ns| && |sp + ns[1..i]| <= 5 && (|sp + ns[1..i]| == 5 || i == |ns| - 1)
    ensures Kept(sp + ns[1..|ns| - 1]) == sp + ns[1..i]
  {
  }

  lemma KeptNext(sp: seq<Node>, ns: seq<Node>, p: nat, i: nat)
    requires p <= i < |ns|
    ensures Kept(Kept(sp + ns[p..i]) + [ns[i]]) == Kept(sp + ns[p..i + 1])
  {
    assert sp + ns[p..i + 1] == sp + ns[p..i] + [ns[i]];
  }

  lemma RangeFacts(ns: seq<Node>, elems: seq<Elem>, spare: seq<Node>, from: nat, to: nat)
    requires Linked(ns) && Holds(ns, elems) && SpareOk(spare, ns) && from <= to <= |elems|
    ensures Holds(Without(ns, from + 1, to + 1), Without(elems, from, to))
    ensures SpareOk(Kept(spare + ns[from + 1..to + 1]), Without(ns, from + 1, to + 1))
    ensures var r := Without(ns, from + 1, to + 1); r[0] == ns[0] && r[|r| - 1] == ns[|ns| - 1]
  {
    HoldsWithout(ns, elems, from, to);
    SpareKept(spare, ns, from + 1, to + 1);
  }

  lemma EmptyFacts(ns: seq<Node>, elems: seq<Elem>, spare: seq<Node>)
    requires Linked(ns) && Holds(ns, elems) && SpareOk(spare, ns)
    ensures Without(ns, 1, |elems| + 1) == [ns[0], ns[|elems| + 1]]
    ensures Holds([ns[0], ns[|elems| + 1]], []) && MidOk(null, [ns[0], ns[|elems| + 1]])
    ensures SpareOk(Kept(spare + ns[1..|elems| + 1]), [ns[0], ns[|elems| + 1]])
  {
    SpareKept(spare, ns, 1, |elems| + 1);
  }
}
