/** heapsort64: one loop that first arranges the array into a binary heap, then takes it apart. */
module HeapSort {
  import opened SortOrder

  /** The children of j that lie below cnt do not come after it. */
  predicate ParentOk(s: seq<uint64>, j: int, cnt: int, rev: bool)
    requires 0 <= j < cnt <= |s|
  {
    (2 * j + 1 < cnt ==> Le(s[2 * j + 1], s[j], rev)) && (2 * j + 2 < cnt ==> Le(s[2 * j + 2], s[j], rev))
  }

  /** The heap order holds from index p on. */
  ghost predicate HeapFrom(s: seq<uint64>, p: int, cnt: int, rev: bool)
    requires 0 <= p && cnt <= |s|
  {
    forall j :: p <= j < cnt ==> ParentOk(s, j, cnt, rev)
  }

  /** Whether sinking t stops above the child x; the two directions differ on equal elements. */
  predicate StopsAbove(x: uint64, t: uint64, rev: bool) {
    if rev then x > t else x <= t
  }

  /** The child that may move up. */
  function Child(s: seq<uint64>, i: int, cnt: int, rev: bool): (c: int)
    requires 0 <= i && 2 * i + 1 < cnt <= |s|
    ensures i < c < cnt && (c == 2 * i + 1 || c == 2 * i + 2)
  {
    if 2 * i + 2 < cnt && Lt(s[2 * i + 1], s[2 * i + 2], rev) then 2 * i + 2 else 2 * i + 1
  }

  /** The element at i sinks to its place among the first cnt. */
  function Sunk(s: seq<uint64>, i: int, cnt: int, rev: bool): (t: seq<uint64>)
    requires 0 <= i < cnt <= |s|
    ensures |t| == |s|
    decreases cnt - i
  {
    if cnt <= 2 * i + 1 then s else
      var c := Child(s, i, cnt, rev);
      if StopsAbove(s[c], s[i], rev) then s else Sunk(Swap(s, i, c), c, cnt, rev)
  }

  lemma SunkStep(s: seq<uint64>, i: int, cnt: int, rev: bool)
    requires 0 <= i < cnt <= |s|
    ensures cnt <= 2 * i + 1 ==> Sunk(s, i, cnt, rev) == s
    ensures 2 * i + 1 < cnt ==>
              var c := Child(s, i, cnt, rev);
              Sunk(s, i, cnt, rev) == if StopsAbove(s[c], s[i], rev) then s else Sunk(Swap(s, i, c), c, cnt, rev)
  {
  }

  lemma {:induction false} SunkPermutes(s: seq<uint64>, i: int, cnt: int, rev: bool)
    requires 0 <= i < cnt <= |s|
    ensures multiset(Sunk(s, i, cnt, rev)) == multiset(s)
    ensures forall j :: 0 <= j < i || cnt <= j < |s| ==> Sunk(s, i, cnt, rev)[j] == s[j]
    decreases cnt - i
  {
    if 2 * i + 1 < cnt {
      var c := Child(s, i, cnt, rev);
      SwapPermutes(s, i, c);
      SunkPermutes(Swap(s, i, c), c, cnt, rev);
    }
  }

  lemma {:induction false} SunkBound(s: seq<uint64>, i: int, cnt: int, rev: bool, x: uint64)
    requires 0 <= i < cnt <= |s|
    requires forall j :: 0 <= j < cnt ==> Le(s[j], x, rev)
    ensures forall j :: 0 <= j < cnt ==> Le(Sunk(s, i, cnt, rev)[j], x, rev)
    decreases cnt - i
  {
    if 2 * i + 1 < cnt {
      var c := Child(s, i, cnt, rev);
      SunkBound(Swap(s, i, c), c, cnt, rev, x);
    }
  }

  /** Heap order from p on but for i, whose children may take its place below its parent. */
  ghost predicate HeapBut(s: seq<uint64>, p: int, i: int, cnt: int, rev: bool)
    requires 0 <= p <= i < cnt <= |s|
  {
    (forall j :: p <= j < cnt && j != i ==> ParentOk(s, j, cnt, rev)) &&
    (forall j, k :: p <= j < k < cnt && (i == 2 * j + 1 || i == 2 * j + 2) && (k == 2 * i + 1 || k == 2 * i + 2) ==>
      Le(s[k], s[j], rev))
  }

  lemma SwapKeepsHeapBut(s: seq<uint64>, p: int, i: int, cnt: int, rev: bool)
    requires 0 <= p <= i && 2 * i + 1 < cnt <= |s| && HeapBut(s, p, i, cnt, rev)
    requires Le(s[i], s[Child(s, i, cnt, rev)], rev)
    ensures HeapBut(Swap(s, i, Child(s, i, cnt, rev)), p, Child(s, i, cnt, rev), cnt, rev)
  {
    var c := Child(s, i, cnt, rev);
    var t := Swap(s, i, c);
    assert ParentOk(s, c, cnt, rev);
    forall j | p <= j < cnt && j != c
      ensures ParentOk(t, j, cnt, rev)
    {
      assert j != i ==> ParentOk(s, j, cnt, rev);
    }
  }

  lemma {:induction false} SunkRestoresHeap(s: seq<uint64>, p: int, i: int, cnt: int, rev: bool)
    requires 0 <= p <= i < cnt <= |s| && HeapBut(s, p, i, cnt, rev)
    ensures HeapFrom(Sunk(s, i, cnt, rev), p, cnt, rev)
    decreases cnt - i
  {
    if 2 * i + 1 < cnt {
      var c := Child(s, i, cnt, rev);
      if StopsAbove(s[c], s[i], rev) {
        assert ParentOk(s, i, cnt, rev);
      } else {
        SwapKeepsHeapBut(s, p, i, cnt, rev);
        SunkRestoresHeap(Swap(s, i, c), p, c, cnt, rev);
      }
    } else {
      assert ParentOk(s, i, cnt, rev);
    }
  }

  lemma {:induction false} RootIsLast(s: seq<uint64>, cnt: int, rev: bool, j: int)
    requires 0 <= j < cnt <= |s| && HeapFrom(s, 0, cnt, rev)
    ensures Le(s[j], s[0], rev)
    decreases j
  {
    if 0 < j {
      var k := (j - 1) / 2;
      assert ParentOk(s, k, cnt, rev) && (j == 2 * k + 1 || j == 2 * k + 2);
      RootIsLast(s, cnt, rev, k);
    }
  }

  /** The loop head: heap order from p on, final places from cnt on; extraction starts at p = 0. */
  ghost predicate Progress(s: seq<uint64>, p: int, cnt: int, rev: bool) {
    0 <= p <= cnt <= |s| && HeapFrom(s, p, cnt, rev) && Tail(s, cnt, rev) && (0 < p ==> cnt == |s|)
  }

  /** The second half of the array has no children. */
  lemma StartsBuilding(s: seq<uint64>, rev: bool)
    ensures Progress(s, |s| / 2, |s|, rev)
  {
  }

  /** With nothing left to extract the array is sorted. */
  lemma Done(s: seq<uint64>, rev: bool)
    requires Progress(s, 0, 1, rev)
    ensures Sorted(s, rev)
  {
  }

  /** The root moves behind the heap and the last element takes its place and sinks. */
  lemma Extract(s: seq<uint64>, cnt: int, rev: bool)
    requires 0 < cnt < |s| && Progress(s, 0, cnt + 1, rev)
    ensures var t := Sunk(Swap(s, 0, cnt), 0, cnt, rev);
            Progress(t, 0, cnt, rev) && multiset(t) == multiset(s)
  {
    var w := Swap(s, 0, cnt);
    SwapPermutes(s, 0, cnt);
    SunkPermutes(w, 0, cnt, rev);
    forall j | 0 <= j < cnt && j != 0
      ensures ParentOk(w, j, cnt, rev)
    {
      assert ParentOk(s, j, cnt + 1, rev);
    }
    SunkRestoresHeap(w, 0, 0, cnt, rev);
    forall j | 0 <= j < cnt + 1
      ensures Le(s[j], s[0], rev)
    {
      RootIsLast(s, cnt + 1, rev, j);
    }
    ExtractTail(s, cnt, rev);
  }

  lemma ExtractTail(s: seq<uint64>, cnt: int, rev: bool)
    requires 0 < cnt < |s| && Tail(s, cnt + 1, rev)
    requires forall j :: 0 <= j < cnt + 1 ==> Le(s[j], s[0], rev)
    ensures Tail(Sunk(Swap(s, 0, cnt), 0, cnt, rev), cnt, rev)
  {
    var w := Swap(s, 0, cnt);
    var t := Sunk(w, 0, cnt, rev);
    SunkPermutes(w, 0, cnt, rev);
    forall i, j | 0 <= i < j < |t| && cnt <= j
      ensures Le(t[i], t[j], rev)
    {
      if i < cnt {
        SunkBound(w, 0, cnt, rev, w[j]);
      }
    }
  }

  /** Building: the element at p sinks. */
  lemma Extend(s: seq<uint64>, p: int, cnt: int, rev: bool)
    requires 0 < p && Progress(s, p, cnt, rev)
    ensures var t := Sunk(s, p - 1, cnt, rev);
            Progress(t, p - 1, cnt, rev) && multiset(t) == multiset(s)
  {
    SunkPermutes(s, p - 1, cnt, rev);
    SunkRestoresHeap(s, p - 1, p - 1, cnt, rev);
  }

  /** Sinks t into the hole at p. */
  method Sink(buf: array<uint64>, p: int, cnt: int, rev: bool, t: uint64, ghost s: seq<uint64>)
    requires 0 <= p < cnt <= buf.Length && Hole(buf, s, p, t)
    modifies buf
    ensures buf[..] == Sunk(s, p, cnt, rev)
  {
    hide Sunk;
    ghost var w := s;
    var i := p;
    var c := i * 2 + 1;
    while c < cnt
      invariant 0 <= i < cnt && c == 2 * i + 1 && Hole(buf, w, i, t)
      invariant Sunk(w, i, cnt, rev) == Sunk(s, p, cnt, rev)
      decreases cnt - i
    {
      if c + 1 < cnt {
        if rev {
          if buf[c + 1] < buf[c] {
            c := c + 1;
          }
        } else {
          if buf[c + 1] > buf[c] {
            c := c + 1;
          }
        }
      }
      assert c == Child(w, i, cnt, rev);
      SunkStep(w, i, cnt, rev);
      if StopsAbove(buf[c], t, rev) {
        break;
      }
      buf[i] := buf[c];
      w := Swap(w, i, c);
      i := c;
      c := i * 2 + 1;
    }
    SunkStep(w, i, cnt, rev);
    buf[i] := t;
    assert buf[..] == w;
  }

  /** heapsort64: sorts buf in the direction asked for. */
  method HeapSort64(buf: array<uint64>, rev: bool)
    requires 1 <= buf.Length
    modifies buf
    ensures IsSortOf(buf[..], old(buf[..]), rev)
  {
    hide HeapFrom, Tail, Sunk;
    var cnt := buf.Length;
    var p := cnt / 2;
    StartsBuilding(buf[..], rev);
    while true
      invariant 1 <= cnt && Progress(buf[..], p, cnt, rev)
      invariant multiset(buf[..]) == multiset(old(buf[..]))
      decreases p + cnt
    {
      ghost var s := buf[..];
      var t;
      if 0 < p {
        Extend(s, p, cnt, rev);
        p := p - 1;
        t := buf[p];
        Sink(buf, p, cnt, rev, t, s);
      } else {
        cnt := cnt - 1;
        if cnt == 0 {
          Done(s, rev);
          return;
        }
        Extract(s, cnt, rev);
        t := buf[cnt];
        buf[cnt] := buf[0];
        Sink(buf, p, cnt, rev, t, Swap(s, 0, cnt));
      }
    }
  }
}
