/**
 * The message buffers of the websocket connections: sixteen slots that any number of queues share. A slot is
 * free iff its length is 0. A pointer to a slot is its index.
 */
module Mbuf {
  import opened Decimal

  const MAXMBUFS: nat := 16
  const MAXMSGLEN: nat := 1024

  datatype Ptr = Null | To(i: nat)
  datatype Slot = Slot(len: nat, buf: seq<byte>, next: Ptr)

  /** What a slot is used for. */
  datatype Use = Free | Held | In(q: nat)

  // ---------- Queues ----------

  /** From head on the next fields spell list, in which no slot comes twice. */
  ghost predicate Linked(slots: seq<Slot>, head: Ptr, list: seq<nat>)
    decreases |list|
  {
    if list == [] then head == Null
    else head == To(list[0]) && list[0] < |slots| && list[0] !in list[1..] &&
         Linked(slots, slots[list[0]].next, list[1..])
  }

  lemma {:induction false} LinkedStays(slots: seq<Slot>, slots': seq<Slot>, head: Ptr, list: seq<nat>)
    requires Linked(slots, head, list) && |slots'| == |slots|
    requires forall k :: k in list && k < |slots| ==> slots'[k].next == slots[k].next
    ensures Linked(slots', head, list)
    decreases |list|
  {
    if list != [] {
      assert list[0] in list;
      LinkedStays(slots, slots', slots[list[0]].next, list[1..]);
    }
  }

  /** Linking a new slot to the last one extends the queue. */
  lemma {:induction false} LinkedAppend(slots: seq<Slot>, head: Ptr, list: seq<nat>, el: nat)
    requires Linked(slots, head, list) && list != [] && el < |slots| && el !in list && slots[el].next == Null
    requires list[|list| - 1] < |slots|
    ensures var last := list[|list| - 1]; Linked(slots[last := slots[last].(next := To(el))], head, list + [el])
    decreases |list|
  {
    var last := list[|list| - 1];
    var slots' := slots[last := slots[last].(next := To(el))];
    assert (list + [el])[1..] == list[1..] + [el];
    if |list| == 1 {
      assert Linked(slots', Null, [el][1..]);
      assert Linked(slots', To(el), [el]);
    } else {
      assert last in list[1..];
      LinkedAppend(slots, slots[list[0]].next, list[1..], el);
    }
  }

  function Message(slots: seq<Slot>, k: nat): seq<byte> {
    if k < |slots| && slots[k].len <= |slots[k].buf| then slots[k].buf[..slots[k].len] else []
  }

  /** The messages of a queue. */
  function Messages(slots: seq<Slot>, list: seq<nat>): (ms: seq<seq<byte>>)
    ensures |ms| == |list|
  {
    if list == [] then [] else [Message(slots, list[0])] + Messages(slots, list[1..])
  }

  lemma {:induction false} MessagesStay(slots: seq<Slot>, slots': seq<Slot>, list: seq<nat>)
    requires forall k :: k in list ==> Message(slots', k) == Message(slots, k)
    ensures Messages(slots', list) == Messages(slots, list)
  {
    if list != [] {
      assert list[0] in list;
      MessagesStay(slots, slots', list[1..]);
    }
  }

  lemma {:induction false} MessagesAppend(slots: seq<Slot>, list: seq<nat>, el: nat)
    ensures Messages(slots, list + [el]) == Messages(slots, list) + [Message(slots, el)]
  {
    if list != [] {
      assert (list + [el])[1..] == list[1..] + [el];
      MessagesAppend(slots, list[1..], el);
    }
  }

  ghost predicate SlotOk(s: Slot, use: Use, queues: nat) {
    s.len <= MAXMSGLEN == |s.buf| && (use == Free <==> s.len == 0) && (use == Held ==> s.next == Null) &&
    (use.In? ==> use.q < queues)
  }

  ghost predicate QueueOk(q: nat, slots: seq<Slot>, head: Ptr, list: seq<nat>, uses: seq<Use>)
    requires |uses| == |slots|
  {
    Linked(slots, head, list) &&
    (forall k :: k in list ==> k < |slots| && uses[k] == In(q)) &&
    (forall k :: 0 <= k < |slots| && uses[k] == In(q) ==> k in list)
  }

  /** Every slot is free, or held by who has just filled it, or in one place of one queue. */
  ghost predicate Inv(slots: seq<Slot>, heads: seq<Ptr>, lists: seq<seq<nat>>, uses: seq<Use>) {
    |slots| == |uses| && |heads| == |lists| &&
    (forall k :: 0 <= k < |slots| ==> SlotOk(slots[k], uses[k], |lists|)) &&
    (forall q :: 0 <= q < |lists| ==> QueueOk(q, slots, heads[q], lists[q], uses))
  }

  lemma HeadOf(slots: seq<Slot>, heads: seq<Ptr>, lists: seq<seq<nat>>, uses: seq<Use>, q: nat)
    requires Inv(slots, heads, lists, uses) && q < |lists|
    ensures Linked(slots, heads[q], lists[q])
  {
    assert QueueOk(q, slots, heads[q], lists[q], uses);
  }

  lemma FreeMeansEmpty(slots: seq<Slot>, heads: seq<Ptr>, lists: seq<seq<nat>>, uses: seq<Use>)
    requires Inv(slots, heads, lists, uses)
    ensures forall k :: 0 <= k < |slots| ==> (uses[k] == Free <==> slots[k].len == 0)
  {
    assert forall k :: 0 <= k < |slots| ==> SlotOk(slots[k], uses[k], |lists|);
  }

  lemma SlotSize(slots: seq<Slot>, heads: seq<Ptr>, lists: seq<seq<nat>>, uses: seq<Use>, k: nat)
    requires Inv(slots, heads, lists, uses) && k < |slots|
    ensures slots[k].len <= MAXMSGLEN == |slots[k].buf|
  {
    assert SlotOk(slots[k], uses[k], |lists|);
  }

  /** A queue does not notice what happens to a slot that is not in it. */
  lemma QueueStays(q: nat, slots: seq<Slot>, head: Ptr, list: seq<nat>, uses: seq<Use>, k: nat, s: Slot, use: Use)
    requires |uses| == |slots| && k < |slots| && QueueOk(q, slots, head, list, uses)
    requires uses[k] != In(q) && use != In(q)
    ensures QueueOk(q, slots[k := s], head, list, uses[k := use])
    ensures Messages(slots[k := s], list) == Messages(slots, list)
  {
    assert k !in list;
    LinkedStays(slots, slots[k := s], head, list);
    MessagesStay(slots, slots[k := s], list);
  }

  /** A free slot takes a message; an empty message leaves it free. */
  lemma FillInv(slots: seq<Slot>, heads: seq<Ptr>, lists: seq<seq<nat>>, uses: seq<Use>, k: nat, s: Slot)
    requires Inv(slots, heads, lists, uses) && k < |slots| && slots[k].len == 0
    requires s.len <= MAXMSGLEN == |s.buf| && s.next == Null
    ensures Inv(slots[k := s], heads, lists, uses[k := if s.len == 0 then Free else Held])
    ensures forall q :: 0 <= q < |lists| ==> Messages(slots[k := s], lists[q]) == Messages(slots, lists[q])
  {
    var slots' := slots[k := s];
    var use := if s.len == 0 then Free else Held;
    hide QueueOk, Messages, Message;
    assert forall j :: 0 <= j < |slots| ==>
        SlotOk(slots[j], uses[j], |lists|) && SlotOk(slots'[j], uses[k := use][j], |lists|);
    assert uses[k] == Free;
    hide SlotOk;
    forall q | 0 <= q < |lists|
      ensures QueueOk(q, slots', heads[q], lists[q], uses[k := use])
      ensures Messages(slots', lists[q]) == Messages(slots, lists[q])
    {
      QueueStays(q, slots, heads[q], lists[q], uses, k, s, use);
    }
  }

  /** The slots once el is linked behind the list, which may be empty. */
  function LinkedTo(slots: seq<Slot>, list: seq<nat>, el: nat): (slots': seq<Slot>)
    ensures |slots'| == |slots|
  {
    if list == [] || list[|list| - 1] >= |slots| then slots
    else var last := list[|list| - 1]; slots[last := slots[last].(next := To(el))]
  }

  lemma JoinOther(r: nat, slots: seq<Slot>, head: Ptr, list: seq<nat>, uses: seq<Use>,
                  q: nat, first: Ptr, joined: seq<nat>, el: nat)
    requires |uses| == |slots| && QueueOk(r, slots, head, list, uses) && r != q
    requires el < |slots| && uses[el] == Held && QueueOk(q, slots, first, joined, uses)
    ensures QueueOk(r, LinkedTo(slots, joined, el), head, list, uses[el := In(q)])
    ensures Messages(LinkedTo(slots, joined, el), list) == Messages(slots, list)
  {
    QueueStays(r, slots, head, list, uses, el, slots[el], In(q));
    assert slots[el := slots[el]] == slots;
    if joined != [] {
      var last := joined[|joined| - 1];
      assert last in joined;
      hide QueueOk;
      QueueStays(r, slots, head, list, uses[el := In(q)], last, slots[last].(next := To(el)), In(q));
      assert uses[el := In(q)][last := In(q)] == uses[el := In(q)];
    }
  }

  lemma JoinOwn(q: nat, slots: seq<Slot>, head: Ptr, list: seq<nat>, uses: seq<Use>, el: nat)
    requires |uses| == |slots| && QueueOk(q, slots, head, list, uses)
    requires el < |slots| && uses[el] == Held && slots[el].next == Null
    ensures var slots' := LinkedTo(slots, list, el);
            QueueOk(q, slots', if list == [] then To(el) else head, list + [el], uses[el := In(q)]) &&
            Messages(slots', list + [el]) == Messages(slots, list) + [Message(slots, el)]
    ensures list != [] ==> list[|list| - 1] < |slots| && uses[list[|list| - 1]] == In(q)
  {
    var slots' := LinkedTo(slots, list, el);
    if list == [] {
      assert Linked(slots, slots[el].next, [el][1..]);
    } else {
      assert list[|list| - 1] in list;
      LinkedAppend(slots, head, list, el);
    }
    assert forall k: nat :: Message(slots', k) == Message(slots, k);
    hide Linked, Message;
    MessagesStay(slots, slots', list + [el]);
    MessagesAppend(slots, list, el);
  }

  lemma JoinQueues(slots: seq<Slot>, heads: seq<Ptr>, lists: seq<seq<nat>>, uses: seq<Use>, q: nat, el: nat, r: nat)
    requires Inv(slots, heads, lists, uses) && q < |lists| && el < |slots| && uses[el] == Held && r < |lists|
    ensures var slots' := LinkedTo(slots, lists[q], el);
            var heads' := heads[q := if lists[q] == [] then To(el) else heads[q]];
            var lists' := lists[q := lists[q] + [el]];
            QueueOk(r, slots', heads'[r], lists'[r], uses[el := In(q)]) &&
            Messages(slots', lists'[r]) == Messages(slots, lists[r]) + if r == q then [Message(slots, el)] else []
  {
    hide QueueOk, Messages, Message, LinkedTo;
    assert SlotOk(slots[el], uses[el], |lists|);
    if r == q {
      JoinOwn(q, slots, heads[q], lists[q], uses, el);
    } else {
      JoinOther(r, slots, heads[r], lists[r], uses, q, heads[q], lists[q], el);
    }
  }

  lemma JoinSlots(slots: seq<Slot>, heads: seq<Ptr>, lists: seq<seq<nat>>, uses: seq<Use>, q: nat, el: nat, k: nat)
    requires Inv(slots, heads, lists, uses) && q < |lists| && el < |slots| && uses[el] == Held && k < |slots|
    ensures SlotOk(LinkedTo(slots, lists[q], el)[k], uses[el := In(q)][k], |lists|)
  {
    hide QueueOk, Messages, Message;
    assert SlotOk(slots[k], uses[k], |lists|) && SlotOk(slots[el], uses[el], |lists|);
    JoinOwn(q, slots, heads[q], lists[q], uses, el);
  }

  /** A held slot joins the end of the queue q. */
  lemma JoinInv(slots: seq<Slot>, heads: seq<Ptr>, lists: seq<seq<nat>>, uses: seq<Use>, q: nat, el: nat)
    requires Inv(slots, heads, lists, uses) && q < |lists| && el < |slots| && uses[el] == Held
    ensures var slots' := LinkedTo(slots, lists[q], el);
            var lists' := lists[q := lists[q] + [el]];
            Inv(slots', heads[q := if lists[q] == [] then To(el) else heads[q]], lists', uses[el := In(q)]) &&
            forall r :: 0 <= r < |lists| ==>
              Messages(slots', lists'[r]) == Messages(slots, lists[r]) + if r == q then [Message(slots, el)] else []
  {
    hide QueueOk, SlotOk, Messages, Message, LinkedTo;
    var slots' := LinkedTo(slots, lists[q], el);
    var heads' := heads[q := if lists[q] == [] then To(el) else heads[q]];
    var lists' := lists[q := lists[q] + [el]];
    forall r | 0 <= r < |lists|
      ensures QueueOk(r, slots', heads'[r], lists'[r], uses[el := In(q)])
      ensures Messages(slots', lists'[r]) == Messages(slots, lists[r]) + if r == q then [Message(slots, el)] else []
    {
      JoinQueues(slots, heads, lists, uses, q, el, r);
    }
    forall k | 0 <= k < |slots|
      ensures SlotOk(slots'[k], uses[el := In(q)][k], |lists'|)
    {
      JoinSlots(slots, heads, lists, uses, q, el, k);
    }
  }

  /** Linking changes no text. */
  lemma LinkedTexts(slots: seq<Slot>, list: seq<nat>, el: nat, l: seq<nat>)
    ensures Messages(LinkedTo(slots, list, el), l) == Messages(slots, l)
  {
    assert forall k: nat :: Message(LinkedTo(slots, list, el), k) == Message(slots, k);
    MessagesStay(slots, LinkedTo(slots, list, el), l);
  }

  lemma JoinLinked(slots: seq<Slot>, head: Ptr, list: seq<nat>, el: nat)
    requires Linked(slots, head, list) && el < |slots| && el !in list && slots[el].next == Null
    requires list == [] || list[|list| - 1] < |slots|
    ensures Linked(LinkedTo(slots, list, el), if list == [] then To(el) else head, list + [el])
  {
    if list == [] {
      assert Linked(slots, slots[el].next, [el][1..]);
    } else {
      LinkedAppend(slots, head, list, el);
    }
  }

  lemma ListedHasUse(slots: seq<Slot>, heads: seq<Ptr>, lists: seq<seq<nat>>, uses: seq<Use>, q: nat, k: nat)
    requires Inv(slots, heads, lists, uses) && q < |lists| && k in lists[q]
    ensures k < |slots| && uses[k] == In(q)
  {
    assert QueueOk(q, slots, heads[q], lists[q], uses);
  }

  lemma JoinTexts(slots: seq<Slot>, lists: seq<seq<nat>>, q: nat, el: nat, r: nat)
    requires q < |lists| && r < |lists|
    ensures Messages(LinkedTo(slots, lists[q], el), lists[q := lists[q] + [el]][r]) ==
            Messages(slots, lists[r]) + if r == q then [Message(slots, el)] else []
  {
    hide LinkedTo, Message, Messages;
    LinkedTexts(slots, lists[q], el, lists[q := lists[q] + [el]][r]);
    MessagesAppend(slots, lists[q], el);
  }

  /** A slot that is free, because its message is empty, can be linked to the end, but that breaks the invariant. */
  lemma JoinEmpty(slots: seq<Slot>, heads: seq<Ptr>, lists: seq<seq<nat>>, uses: seq<Use>, q: nat, el: nat)
    requires Inv(slots, heads, lists, uses) && q < |lists| && el < |slots| && uses[el] == Free && slots[el].next == Null
    ensures var slots' := LinkedTo(slots, lists[q], el);
            var heads' := heads[q := if lists[q] == [] then To(el) else heads[q]];
            var lists' := lists[q := lists[q] + [el]];
            Linked(slots', heads'[q], lists'[q]) && !Inv(slots', heads', lists', uses)
  {
    var list := lists[q];
    var slots', lists' := LinkedTo(slots, list, el), lists[q := list + [el]];
    var heads' := heads[q := if list == [] then To(el) else heads[q]];
    hide QueueOk, SlotOk, Linked, LinkedTo;
    HeadOf(slots, heads, lists, uses, q);
    if el in list {
      ListedHasUse(slots, heads, lists, uses, q, el);
    }
    if list != [] {
      ListedHasUse(slots, heads, lists, uses, q, list[|list| - 1]);
    }
    JoinLinked(slots, heads[q], list, el);
    hide Inv;
    if Inv(slots', heads', lists', uses) {
      assert el in lists'[q];
      ListedHasUse(slots', heads', lists', uses, q, el);
    }
  }

  /** And then the next message, for whatever queue, is filled into that slot and shows up in this queue. */
  lemma NextMessageIntrudes(slots: seq<Slot>, list: seq<nat>, el: nat, m: seq<byte>)
    requires el < |slots| && el !in list && slots[el].len == 0 && |m| <= |slots[el].buf|
    ensures Search(slots, el, 0) == To(el)
    ensures var s := Slot(|m|, m + slots[el].buf[|m|..], Null);
            Messages(slots[el := s], list + [el]) == Messages(slots, list) + [m]
  {
    FoundAgainIffEmpty(slots, el);
    var slots' := slots[el := Slot(|m|, m + slots[el].buf[|m|..], Null)];
    assert Message(slots', el) == m;
    assert forall k: nat :: k != el ==> Message(slots', k) == Message(slots, k);
    MessagesStay(slots, slots', list);
    MessagesAppend(slots', list, el);
  }

  lemma TailMembers(list: seq<nat>)
    requires list != [] && list[0] !in list[1..]
    ensures forall j :: j in list[1..] <==> j in list && j != list[0]
  {
    assert list == [list[0]] + list[1..];
  }

  lemma LeaveOwn(q: nat, slots: seq<Slot>, head: Ptr, list: seq<nat>, uses: seq<Use>)
    requires |uses| == |slots| && QueueOk(q, slots, head, list, uses) && list != []
    ensures head == To(list[0]) && list[0] < |slots| && uses[list[0]] == In(q)
    ensures var slots' := slots[list[0] := slots[list[0]].(len := 0)];
            QueueOk(q, slots', slots[list[0]].next, list[1..], uses[list[0] := Free]) &&
            Messages(slots, list) == [Message(slots, list[0])] + Messages(slots', list[1..])
  {
    var k := list[0];
    assert k in list;
    var slots' := slots[k := slots[k].(len := 0)];
    LinkedStays(slots, slots', slots[k].next, list[1..]);
    assert forall j: nat :: j != k ==> Message(slots', j) == Message(slots, j);
    MessagesStay(slots, slots', list[1..]);
    TailMembers(list);
    hide Linked, Message;
  }

  /** The first slot leaves the queue q and is free. */
  lemma LeaveInv(slots: seq<Slot>, heads: seq<Ptr>, lists: seq<seq<nat>>, uses: seq<Use>, q: nat)
    requires Inv(slots, heads, lists, uses) && q < |lists| && lists[q] != []
    ensures heads[q] == To(lists[q][0]) && lists[q][0] < |slots|
    ensures var k := lists[q][0];
            var slots' := slots[k := slots[k].(len := 0)];
            Inv(slots', heads[q := slots[k].next], lists[q := lists[q][1..]], uses[k := Free]) &&
            Messages(slots, lists[q]) == [Message(slots, k)] + Messages(slots', lists[q][1..]) &&
            forall r :: 0 <= r < |lists| && r != q ==> Messages(slots', lists[r]) == Messages(slots, lists[r])
  {
    hide QueueOk, Messages, Message;
    var k := lists[q][0];
    LeaveOwn(q, slots, heads[q], lists[q], uses);
    var slots' := slots[k := slots[k].(len := 0)];
    forall r | 0 <= r < |lists| && r != q
      ensures QueueOk(r, slots', heads[r], lists[r], uses[k := Free])
      ensures Messages(slots', lists[r]) == Messages(slots, lists[r])
    {
      QueueStays(r, slots, heads[r], lists[r], uses, k, slots'[k], Free);
    }
    assert SlotOk(slots[k], uses[k], |lists|);
  }

  // ---------- The search for a free slot ----------

  /** d slots after i, around the end. */
  function Around(i: nat, d: nat, n: nat): nat {
    if i + d < n then i + d else i + d - n
  }

  function Search(slots: seq<Slot>, i: nat, d: nat): Ptr
    requires i < |slots| && d <= |slots|
    decreases |slots| - d
  {
    if d == |slots| then Null
    else if slots[Around(i, d, |slots|)].len == 0 then To(Around(i, d, |slots|))
    else Search(slots, i, d + 1)
  }

  lemma {:induction false} SearchIsFree(slots: seq<Slot>, i: nat, d: nat)
    requires i < |slots| && d <= |slots|
    ensures Search(slots, i, d) == Null <==> forall e :: d <= e < |slots| ==> slots[Around(i, e, |slots|)].len != 0
    ensures Search(slots, i, d).To? ==> Search(slots, i, d).i < |slots| && slots[Search(slots, i, d).i].len == 0
    decreases |slots| - d
  {
    if d < |slots| {
      SearchIsFree(slots, i, d + 1);
    }
  }

  /** From any cursor a free slot is found iff there is one. */
  lemma SearchFinds(slots: seq<Slot>, i: nat)
    requires i < |slots|
    ensures Search(slots, i, 0) == Null <==> forall k :: 0 <= k < |slots| ==> slots[k].len != 0
    ensures Search(slots, i, 0).To? ==> Search(slots, i, 0).i < |slots| && slots[Search(slots, i, 0).i].len == 0
  {
    SearchIsFree(slots, i, 0);
    if Search(slots, i, 0) == Null {
      forall k | 0 <= k < |slots|
        ensures slots[k].len != 0
      {
        var e := if i <= k then k - i else k - i + |slots|;
        assert slots[Around(i, e, |slots|)].len != 0;
      }
    }
  }

  lemma {:induction false} SearchSkips(slots: seq<Slot>, i: nat, d: nat) returns (e: nat)
    requires i < |slots| && d <= |slots| && Search(slots, i, d).To?
    ensures d <= e < |slots| && Search(slots, i, d) == To(Around(i, e, |slots|))
    ensures forall j :: d <= j < e ==> slots[Around(i, j, |slots|)].len != 0
    decreases |slots| - d
  {
    e := d;
    if slots[Around(i, d, |slots|)].len != 0 {
      e := SearchSkips(slots, i, d + 1);
    }
  }

  /** The slot found is the first free one from the cursor on, around the end. */
  lemma SearchIsFirst(slots: seq<Slot>, i: nat)
    requires i < |slots| && Search(slots, i, 0).To?
    ensures var k := Search(slots, i, 0).i;
            k < |slots| &&
            forall j :: 0 <= j < |slots| && (if i <= k then i <= j < k else i <= j || j < k) ==> slots[j].len != 0
  {
    var n := |slots|;
    var e := SearchSkips(slots, i, 0);
    var k := Around(i, e, n);
    forall j | 0 <= j < n && (if i <= k then i <= j < k else i <= j || j < k)
      ensures slots[j].len != 0
    {
      var a := if i <= j then j - i else j - i + n;
      assert Around(i, a, n) == j && a < e;
    }
  }

  /** The slot just filled, where the cursor stays, is found again iff the message is empty. */
  lemma FoundAgainIffEmpty(slots: seq<Slot>, k: nat)
    requires k < |slots|
    ensures Search(slots, k, 0) == To(k) <==> slots[k].len == 0
  {
    SearchIsFree(slots, k, 0);
  }

  // ---------- Operations ----------

  datatype Reply = Got(k: nat) | TooLong | NoRoom

  class Mbufs {
    const slots: array<Slot>
    const heads: array<Ptr>           // the queue variable of each user
    var i: nat                        // where the next search begins
    ghost var lists: seq<seq<nat>>
    ghost var uses: seq<Use>

    ghost predicate Valid()
      reads this, slots, heads
    {
      slots.Length == MAXMBUFS == |uses| && i < MAXMBUFS && heads.Length == |lists| &&
      Inv(slots[..], heads[..], lists, uses)
    }

    ghost function Queue(q: nat): seq<seq<byte>>
      requires q < |lists|
      reads this, slots
    {
      Messages(slots[..], lists[q])
    }

    constructor (queues: nat)
      ensures Valid() && fresh(slots) && fresh(heads) && heads.Length == queues && slots.Length == 16
      ensures forall k :: 0 <= k < 16 ==> |slots[k].buf| == 1024
      ensures forall q :: 0 <= q < queues ==> Queue(q) == []
      ensures forall k :: 0 <= k < MAXMBUFS ==> uses[k] == Free
    {
      slots := new Slot[MAXMBUFS](_ => Slot(0, seq(MAXMSGLEN, _ => 0), Null));
      heads := new Ptr[queues](_ => Null);
      i := 0;
      lists := seq(queues, _ => []);
      uses := seq(MAXMBUFS, _ => Free);
    }

    /** mbuf. Both errors end the program. */
    method Alloc(m: seq<byte>) returns (r: Reply)
      requires Valid()
      modifies this`i, this`uses, slots
      ensures Valid()
      ensures |m| > MAXMSGLEN ==> r == TooLong
      ensures |m| <= MAXMSGLEN ==>
        r == match old(Search(slots[..], i, 0)) case Null => NoRoom case To(k) => Got(k)
      ensures r == NoRoom ==> forall j :: 0 <= j < MAXMBUFS ==> slots[j].len != 0
      ensures r.Got? ==>
        r.k < MAXMBUFS && old(slots[..])[r.k].len == 0 &&
        forall j :: 0 <= j < MAXMBUFS && (if old(i) <= r.k then old(i) <= j < r.k else old(i) <= j || j < r.k) ==>
          old(slots[j].len) != 0
      ensures r.Got? ==>
        r.k < MAXMBUFS && Message(slots[..], r.k) == m && slots[r.k].next == Null && i == r.k &&
        uses == old(uses)[r.k := if m == [] then Free else Held]
      ensures !r.Got? ==> i == old(i) && slots[..] == old(slots[..]) && uses == old(uses)
      ensures forall q :: 0 <= q < |lists| ==> Queue(q) == old(Queue(q))
    {
      hide Inv, Messages;
      if MAXMSGLEN < |m| {
        return TooLong;
      }
      var l := i;
      ghost var d, was := 0, slots[..];
      SearchFinds(was, l);
      if Search(was, l, 0).To? {
        SearchIsFirst(was, l);
      }
      while slots[i].len != 0
        invariant i < MAXMBUFS && slots.Length == MAXMBUFS
        invariant slots[..] == was && uses == old(uses) && lists == old(lists)
        invariant d < MAXMBUFS && i == Around(l, d, MAXMBUFS) && Search(was, l, 0) == Search(was, l, d)
        decreases MAXMBUFS - d
      {
        i := i + 1;
        if i == MAXMBUFS {
          i := 0;
        }
        d := d + 1;
        if i == l {
          return NoRoom;
        }
      }
      SlotSize(was, heads[..], lists, uses, i);
      ghost var s := Slot(|m|, m + slots[i].buf[|m|..], Null);
      FillInv(was, heads[..], lists, uses, i, s);
      slots[i] := slots[i].(buf := m + slots[i].buf[|m|..]);
      slots[i] := slots[i].(len := |m|);
      slots[i] := slots[i].(next := Null);
      assert slots[..] == was[i := s];
      uses := uses[i := if m == [] then Free else Held];
      r := Got(i);
    }

    /**
     * mbufq, for a slot that mbuf has just filled. The message goes to the end of the queue; with an empty
     * message the slots are no longer as they should be.
     */
    method Enqueue(q: nat, el: nat)
      requires Valid() && q < heads.Length && el < MAXMBUFS && !uses[el].In? && slots[el].next == Null
      modifies this`lists, this`uses, slots, heads
      ensures |lists| == heads.Length && lists == old(lists)[q := old(lists)[q] + [el]]
      ensures uses == if old(uses[el]) == Held then old(uses)[el := In(q)] else old(uses)
      ensures Valid() <==> old(slots[el].len) != 0
      ensures Queue(q) == old(Queue(q)) + [old(Message(slots[..], el))]
      ensures forall r :: 0 <= r < |lists| && r != q ==> Queue(r) == old(Queue(r))
    {
      ghost var was, hs, list := slots[..], heads[..], lists[q];
      FreeMeansEmpty(was, hs, lists, uses);
      if uses[el] == Held {
        JoinInv(was, hs, lists, uses, q, el);
      } else {
        JoinEmpty(was, hs, lists, uses, q, el);
      }
      HeadOf(was, hs, lists, uses, q);
      forall r | 0 <= r < |lists| {
        JoinTexts(was, lists, q, el, r);
      }
      hide Inv, Messages, Message, Linked, LinkedTo;
      Link(q, el, list);
      lists := lists[q := list + [el]];
      if uses[el] == Held {
        uses := uses[el := In(q)];
      }
    }

    /** The code of mbufq: the walk to the last slot of the queue. */
    method Link(q: nat, el: nat, ghost list: seq<nat>)
      requires q < heads.Length && el < slots.Length && Linked(slots[..], heads[q], list)
      modifies slots, heads
      ensures slots[..] == LinkedTo(old(slots[..]), list, el)
      ensures heads[..] == old(heads[..])[q := if list == [] then To(el) else old(heads[q])]
    {
      ghost var was := slots[..];
      if heads[q] == Null {
        heads[q] := To(el);
      } else {
        var p := heads[q].i;
        ghost var j := 0;
        while slots[p].next != Null
          invariant p < |was| && j < |list| && p == list[j] && Linked(was, To(p), list[j..])
          decreases |list| - j
          modifies {}
        {
          assert list[j..][1..] == list[j + 1..];
          p := slots[p].next.i;
          j := j + 1;
        }
        assert list[j..][1..] == [] && j == |list| - 1;
        slots[p] := slots[p].(next := To(el));
      }
    }

    /** mbufp: the length of the message, 0 for an empty queue, -1 for a buffer too small. */
    method Pop(q: nat, dst: array<byte>, len: nat) returns (r: int)
      requires Valid() && q < heads.Length && len <= dst.Length
      modifies this`lists, this`uses, slots, heads, dst
      ensures Valid()
      ensures old(Queue(q)) == [] ==> r == 0
      ensures old(Queue(q)) != [] ==> r == if |old(Queue(q))[0]| > len then -1 else |old(Queue(q))[0]|
      ensures r <= 0 ==>
        slots[..] == old(slots[..]) && heads[..] == old(heads[..]) && lists == old(lists) && uses == old(uses) &&
        dst[..] == old(dst[..])
      ensures r > 0 ==>
        old(Queue(q)) == [dst[..r]] + Queue(q) && r <= dst.Length && dst[r..] == old(dst[r..])
      ensures forall p :: 0 <= p < |lists| && p != q ==> Queue(p) == old(Queue(p))
    {
      ghost var was, hs, list, us := slots[..], heads[..], lists[q], uses;
      HeadOf(was, hs, lists, us, q);
      r := 0;
      if heads[q] != Null {
        var k := heads[q].i;
        LeaveInv(was, hs, lists, us, q);
        SlotSize(was, hs, lists, us, k);
        assert |Message(was, k)| == slots[k].len;
        hide Inv, Messages, Linked;
        if slots[k].len > len {
          return -1;
        }
        forall j | 0 <= j < slots[k].len {
          dst[j] := slots[k].buf[j];
        }
        r := slots[k].len;
        slots[k] := slots[k].(len := 0);
        heads[q] := slots[k].next;
        assert slots[..] == was[k := was[k].(len := 0)] && heads[..] == hs[q := was[k].next];
        assert dst[..r] == Message(was, k);
        lists := lists[q := list[1..]];
        uses := us[k := Free];
      }
    }

    /** The two calls with which ws_send queues a message, be it empty or not. */
    method Send(q: nat, m: seq<byte>) returns (r: Reply)
      requires Valid() && q < heads.Length
      modifies this, slots, heads
      ensures |m| > MAXMSGLEN ==> r == TooLong
      ensures |m| <= MAXMSGLEN ==> r == NoRoom || r.Got?
      ensures |m| <= MAXMSGLEN ==> (r.Got? <==> exists k :: 0 <= k < MAXMBUFS && old(uses[k]) == Free)
      ensures |lists| == heads.Length && (Valid() <==> !r.Got? || m != [])
      ensures Queue(q) == old(Queue(q)) + if r.Got? then [m] else []
      ensures forall p :: 0 <= p < |lists| && p != q ==> Queue(p) == old(Queue(p))
    {
      FreeMeansEmpty(slots[..], heads[..], lists, uses);
      SearchFinds(slots[..], i);
      r := Alloc(m);
      if r.Got? {
        FreeMeansEmpty(slots[..], heads[..], lists, uses);
        Enqueue(q, r.k);
      }
    }
  }
}
