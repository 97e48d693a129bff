/**
 * The work stack of ecm/queue.c: a singly linked list of values pushed and
 * popped at its head (so it behaves last in, first out, whatever its name),
 * with a size counter, plus flattening to an array, the product of all
 * elements and the run-length grouping of the sorted elements.
 */
module Queue {
  import opened Wrappers

  /**
   * A node of the list. The C code never changes a node after enqueue
   * links it in, so its fields are constants; `content` is the list of
   * values from this node to the end of the chain.
   */
  class Node {
    const data: int
    const next: Node?
    ghost const content: seq<int>

    ghost predicate Valid()
      decreases |content|
    {
      |content| >= 1 && content[0] == data &&
      if next == null then |content| == 1 else next.content == content[1..] && next.Valid()
    }

    constructor (d: int, nx: Node?)
      requires nx == null || nx.Valid()
      ensures Valid() && data == d && next == nx
      ensures content == [d] + (if nx == null then [] else nx.content)
    {
      data := d;
      next := nx;
      content := [d] + (if nx == null then [] else nx.content);
    }
  }

  /** The product of a sequence of values, 1 for the empty sequence. */
  function Product(s: seq<int>): int
  {
    if s == [] then 1 else Product(s[..|s| - 1]) * s[|s| - 1]
  }

  /** Pushing at the head multiplies the product by the new value. */
  lemma {:induction false} ProductPrepend(x: int, s: seq<int>)
    ensures Product([x] + s) == x * Product(s)
    decreases |s|
  {
    if s != [] {
      var t := s[..|s| - 1];
      assert ([x] + s)[..|s|] == [x] + t;
      ProductPrepend(x, t);
    }
  }

  /** The product of a concatenation is the product of the products. */
  lemma {:induction false} ProductConcat(s: seq<int>, t: seq<int>)
    ensures Product(s + t) == Product(s) * Product(t)
    decreases |t|
  {
    if t == [] {
      assert s + t == s;
    } else {
      var t' := t[..|t| - 1];
      assert (s + t)[..|s + t| - 1] == s + t';
      ProductConcat(s, t');
    }
  }

  /** A group returned by queue_group: a value and how many times it occurs. */
  datatype Group = Group(size: nat, value: int)

  predicate Sorted(s: seq<int>)
  {
    forall i, j :: 0 <= i < j < |s| ==> s[i] <= s[j]
  }

  /** A sorted sequence stays sorted when a value no larger than all of it is put in front. */
  lemma ConsSorted(h: int, t: seq<int>)
    requires Sorted(t) && forall i :: 0 <= i < |t| ==> h <= t[i]
    ensures Sorted([h] + t)
  {
    var s := [h] + t;
    forall i, j | 0 <= i < j < |s|
      ensures s[i] <= s[j]
    {
      if i > 0 {
        assert s[i] == t[i - 1] && s[j] == t[j - 1];
      } else {
        assert s[j] == t[j - 1];
      }
    }
  }

  /** Every element of a sorted sequence is at least its first. */
  lemma HeadIsLeast(s: seq<int>, y: int)
    requires Sorted(s) && y in multiset(s)
    ensures s[0] <= y
  {
    var k :| 0 <= k < |s| && s[k] == y;
  }

  /** Insert x into the sorted sequence s. */
  function Insert(x: int, s: seq<int>): (r: seq<int>)
    requires Sorted(s)
    ensures Sorted(r) && multiset(r) == multiset(s) + multiset{x} && |r| == |s| + 1
  {
    if s == [] then [x]
    else if x <= s[0] then
      assert forall i :: 0 <= i < |s| ==> x <= s[i];
      ConsSorted(x, s);
      [x] + s
    else
      assert Sorted(s[1..]);
      var tail := Insert(x, s[1..]);
      assert s == [s[0]] + s[1..];
      forall i | 0 <= i < |tail|
        ensures s[0] <= tail[i]
      {
        assert tail[i] in multiset(tail);
        if tail[i] != x {
          assert tail[i] in multiset(s);
          HeadIsLeast(s, tail[i]);
        }
      }
      ConsSorted(s[0], tail);
      [s[0]] + tail
  }

  /**
   * The order qsort with __cmp_mpz puts the values in: ascending. For
   * integers the sorted arrangement of a multiset is unique, so any correct
   * sort gives this sequence.
   */
  function Sort(s: seq<int>): (r: seq<int>)
    ensures Sorted(r) && multiset(r) == multiset(s) && |r| == |s|
  {
    if s == [] then [] else
      assert s == s[..|s| - 1] + [s[|s| - 1]];
      Insert(s[|s| - 1], Sort(s[..|s| - 1]))
  }

  /** Dropping the first element removes one occurrence of it. */
  lemma MultisetTail(s: seq<int>)
    requires s != []
    ensures multiset(s[1..]) == multiset(s) - multiset{s[0]}
  {
    assert s == [s[0]] + s[1..];
  }

  /** Two sorted sequences with the same elements start with the same value. */
  lemma SortedSameHead(s: seq<int>, t: seq<int>)
    requires Sorted(s) && Sorted(t) && multiset(s) == multiset(t) && s != [] && t != []
    ensures s[0] == t[0]
  {
    assert s[0] in multiset(t) && t[0] in multiset(s);
    HeadIsLeast(s, t[0]);
    HeadIsLeast(t, s[0]);
  }

  /** Two sorted sequences with the same elements are equal. */
  lemma {:induction false} SortedUnique(s: seq<int>, t: seq<int>)
    requires Sorted(s) && Sorted(t) && multiset(s) == multiset(t)
    ensures s == t
    decreases |s|
  {
    assert |s| == |multiset(s)| == |t|;
    if s != [] {
      SortedSameHead(s, t);
      MultisetTail(s);
      MultisetTail(t);
      SortedTail(s);
      SortedTail(t);
      SortedUnique(s[1..], t[1..]);
      assert s == [s[0]] + s[1..] && t == [t[0]] + t[1..];
    }
  }

  lemma SortedTail(s: seq<int>)
    requires Sorted(s) && s != []
    ensures Sorted(s[1..])
  {
  }

  /** Account for one more value x at the end: it joins the last group or starts a new one. */
  function AddToGroups(r: seq<Group>, x: int): (r': seq<Group>)
    ensures |r'| == |r| + (if r != [] && r[|r| - 1].value == x then 0 else 1)
    ensures r' != [] && r'[|r'| - 1].value == x
  {
    if r != [] && r[|r| - 1].value == x then r[..|r| - 1] + [Group(r[|r| - 1].size + 1, x)]
    else r + [Group(1, x)]
  }

  /** The runs of equal values of s, in order; built from the back, one element at a time. */
  function Groups(s: seq<int>): (r: seq<Group>)
    ensures |r| <= |s| && (s == [] <==> r == [])
    ensures s != [] ==> r[|r| - 1].value == s[|s| - 1]
  {
    if s == [] then [] else AddToGroups(Groups(s[..|s| - 1]), s[|s| - 1])
  }

  predicate Ascending(r: seq<Group>)
  {
    forall i, j :: 0 <= i < j < |r| ==> r[i].value < r[j].value
  }

  lemma AddKeepsAscending(r: seq<Group>, x: int)
    requires Ascending(r) && forall i :: 0 <= i < |r| ==> r[i].value <= x
    ensures Ascending(AddToGroups(r, x))
  {
    var r' := AddToGroups(r, x);
    if r != [] && r[|r| - 1].value == x {
      assert forall k :: 0 <= k < |r'| ==> r'[k].value == r[k].value;
    } else {
      forall i, j | 0 <= i < j < |r'|
        ensures r'[i].value < r'[j].value
      {
        assert r'[i] == r[i];
        if j < |r| {
          assert r'[j] == r[j];
        } else if i < |r| - 1 {
          assert r[i].value < r[|r| - 1].value;
        }
      }
    }
  }

  lemma AddKeepsCounts(r: seq<Group>, x: int, m: multiset<int>)
    requires Ascending(r) && forall i :: 0 <= i < |r| ==> r[i].value <= x
    requires forall i :: 0 <= i < |r| ==> r[i].size == m[r[i].value]
    requires m[x] > 0 ==> r != [] && r[|r| - 1].value == x
    ensures var r' := AddToGroups(r, x);
      forall i :: 0 <= i < |r'| ==> r'[i].size == (m + multiset{x})[r'[i].value]
  {
    var r' := AddToGroups(r, x);
    if r != [] && r[|r| - 1].value == x {
      forall i | 0 <= i < |r'|
        ensures r'[i].size == (m + multiset{x})[r'[i].value]
      {
        if i < |r| - 1 {
          assert r'[i] == r[i] && r[i].value < r[|r| - 1].value;
        }
      }
    } else {
      forall i | 0 <= i < |r'|
        ensures r'[i].size == (m + multiset{x})[r'[i].value]
      {
        if i < |r| {
          assert r'[i] == r[i];
          if i < |r| - 1 {
            assert r[i].value < r[|r| - 1].value;
          }
        }
      }
    }
  }

  /** Every group is non-empty and holds a value of s, and every value of s has a group. */
  lemma {:induction false} GroupsCover(s: seq<int>)
    ensures forall i :: 0 <= i < |Groups(s)| ==> Groups(s)[i].size >= 1 && Groups(s)[i].value in s
    ensures forall y :: y in s ==> exists i :: 0 <= i < |Groups(s)| && Groups(s)[i].value == y
    decreases |s|
  {
    if s != [] {
      var p := s[..|s| - 1];
      var x := s[|s| - 1];
      assert s == p + [x];
      GroupsCover(p);
      var rp := Groups(p);
      var r := Groups(s);
      forall i | 0 <= i < |r|
        ensures r[i].size >= 1 && r[i].value in s
      {
        if i == |r| - 1 {
          assert r[i].value == x;
        } else {
          assert r[i] == rp[i];
          assert rp[i].value in p;
        }
      }
      forall y | y in s
        ensures exists i :: 0 <= i < |r| && r[i].value == y
      {
        if y == x {
          assert r[|r| - 1].value == y;
        } else {
          assert y in p;
          var i :| 0 <= i < |rp| && rp[i].value == y;
          assert r[i].value == y;
        }
      }
    }
  }

  /** In an ascending sequence every element is at most the last. */
  lemma LastIsGreatest(s: seq<int>, y: int)
    requires Sorted(s) && y in s
    ensures y <= s[|s| - 1]
  {
  }

  /** For ascending s = p + [x], every group value of p is at most x. */
  lemma GroupValuesBounded(s: seq<int>)
    requires Sorted(s) && s != []
    ensures var p := s[..|s| - 1];
      forall i :: 0 <= i < |Groups(p)| ==> Groups(p)[i].value <= s[|s| - 1]
  {
    var p := s[..|s| - 1];
    GroupsCover(p);
    forall i | 0 <= i < |Groups(p)|
      ensures Groups(p)[i].value <= s[|s| - 1]
    {
      var k :| 0 <= k < |p| && p[k] == Groups(p)[i].value;
      assert s[k] == p[k];
    }
  }

  /** For ascending s the group values are strictly ascending. */
  lemma {:induction false} GroupsAscending(s: seq<int>)
    requires Sorted(s)
    ensures Ascending(Groups(s))
    decreases |s|
  {
    if s != [] {
      var p := s[..|s| - 1];
      assert Sorted(p);
      GroupsAscending(p);
      GroupValuesBounded(s);
      AddKeepsAscending(Groups(p), s[|s| - 1]);
    }
  }

  /** For ascending s each group's size is the number of occurrences of its value. */
  lemma {:induction false} GroupsCount(s: seq<int>)
    requires Sorted(s)
    ensures forall i :: 0 <= i < |Groups(s)| ==> Groups(s)[i].size == multiset(s)[Groups(s)[i].value]
    decreases |s|
  {
    if s != [] {
      var p := s[..|s| - 1];
      var x := s[|s| - 1];
      assert s == p + [x];
      assert multiset(s) == multiset(p) + multiset{x};
      assert Sorted(p);
      GroupsCount(p);
      GroupsAscending(p);
      GroupValuesBounded(s);
      if multiset(p)[x] > 0 {
        var k :| 0 <= k < |p| && p[k] == x;
        assert s[k] <= s[|p| - 1] <= s[|s| - 1];
      }
      AddKeepsCounts(Groups(p), x, multiset(p));
    }
  }

  /**
   * For ascending s, the groups list every distinct value once, in strictly
   * ascending order, each with its number of occurrences.
   */
  lemma GroupsOfSorted(s: seq<int>)
    requires Sorted(s)
    ensures var r := Groups(s);
      (forall i, j :: 0 <= i < j < |r| ==> r[i].value < r[j].value) &&
      (forall i :: 0 <= i < |r| ==> r[i].size >= 1 && r[i].size == multiset(s)[r[i].value]) &&
      (forall x :: x in s ==> exists i :: 0 <= i < |r| && r[i].value == x)
  {
    GroupsCover(s);
    GroupsAscending(s);
    GroupsCount(s);
  }

  /** The i-th group of an ascending sequence: its i-th distinct value and that value's multiplicity. */
  lemma GroupIsDistinctValue(s: seq<int>, i: nat)
    requires Sorted(s) && i < |Groups(s)|
    ensures Groups(s)[i].value in multiset(s)
    ensures Groups(s)[i].size == multiset(s)[Groups(s)[i].value]
    ensures |set j | 0 <= j < i :: Groups(s)[j].value| == i
    ensures forall j :: 0 <= j < i ==> Groups(s)[j].value < Groups(s)[i].value
  {
    GroupsOfSorted(s);
    var r := Groups(s);
    DistinctValuesCount(r, i);
  }

  /** i groups with strictly ascending values have i distinct values. */
  lemma {:induction false} DistinctValuesCount(r: seq<Group>, i: nat)
    requires i <= |r|
    requires forall a, b :: 0 <= a < b < |r| ==> r[a].value < r[b].value
    ensures |set j | 0 <= j < i :: r[j].value| == i
    decreases i
  {
    if i > 0 {
      DistinctValuesCount(r, i - 1);
      var before := set j | 0 <= j < i - 1 :: r[j].value;
      assert (set j | 0 <= j < i :: r[j].value) == before + {r[i - 1].value};
      assert r[i - 1].value !in before;
    }
  }

  /** A run of one repeated value is a single group. */
  lemma {:induction false} GroupsOfConstant(s: seq<int>, v: int)
    requires s != [] && forall k :: 0 <= k < |s| ==> s[k] == v
    ensures Groups(s) == [Group(|s|, v)]
    decreases |s|
  {
    if |s| > 1 {
      GroupsOfConstant(s[..|s| - 1], v);
    }
  }

  /** Adding a value only touches the tail of a non-empty group list. */
  lemma AddToGroupsConcat(a: seq<Group>, b: seq<Group>, x: int)
    requires b != []
    ensures AddToGroups(a + b, x) == a + AddToGroups(b, x)
  {
    assert (a + b)[|a + b| - 1] == b[|b| - 1];
    assert (a + b)[..|a + b| - 1] == a + b[..|b| - 1];
  }

  /** Splitting at a change of value splits the groups. */
  lemma {:induction false} GroupsSplit(p: seq<int>, q: seq<int>)
    requires p == [] || q == [] || p[|p| - 1] != q[0]
    ensures Groups(p + q) == Groups(p) + Groups(q)
    decreases |q|
  {
    if q == [] {
      assert p + q == p;
    } else {
      var q' := q[..|q| - 1];
      var x := q[|q| - 1];
      assert (p + q)[..|p + q| - 1] == p + q';
      assert Groups(p + q) == AddToGroups(Groups(p + q'), x);
      assert Groups(q) == AddToGroups(Groups(q'), x);
      if q' == [] {
        assert p + q' == p;
      } else {
        GroupsSplit(p, q');
        AddToGroupsConcat(Groups(p), Groups(q'), x);
      }
    }
  }

  /** The group starting at position i: the value a[i] and the length of its run. */
  lemma GroupAt(a: seq<int>, i: nat, size: nat)
    requires i < |a| && (i == 0 || a[i - 1] != a[i])
    requires 1 <= size <= |a| - i && forall k :: i <= k < i + size ==> a[k] == a[i]
    requires i + size == |a| || a[i + size] != a[i]
    ensures |Groups(a[..i])| < |Groups(a)|
    ensures Groups(a)[|Groups(a[..i])|] == Group(size, a[i])
  {
    var b := a[i..];
    assert forall k :: 0 <= k < size ==> b[k] == a[i] by {
      forall k | 0 <= k < size
        ensures b[k] == a[i]
      {
        assert b[k] == a[i + k];
      }
    }
    GroupsCut(a, i);
    FirstGroup(b, size, a[i]);
  }

  /** A sequence that opens with a maximal run of v, size long, has that run as its first group. */
  lemma FirstGroup(b: seq<int>, size: nat, v: int)
    requires 1 <= size <= |b| && forall k :: 0 <= k < size ==> b[k] == v
    requires size == |b| || b[size] != v
    ensures |Groups(b)| > 0 && Groups(b)[0] == Group(size, v)
  {
    var run := b[..size];
    assert forall k :: 0 <= k < |run| ==> run[k] == v;
    GroupsCut(b, size);
    GroupsOfConstant(run, v);
  }

  /** Cutting at a change of value splits the groups. */
  lemma GroupsCut(a: seq<int>, i: nat)
    requires i <= |a| && (i == 0 || i == |a| || a[i - 1] != a[i])
    ensures Groups(a) == Groups(a[..i]) + Groups(a[i..])
  {
    CutInTwo(a, i);
    GroupsSplit(a[..i], a[i..]);
  }

  lemma CutInTwo(a: seq<int>, i: nat)
    requires i <= |a|
    ensures a == a[..i] + a[i..]
  {
  }

  /** The shape of the groups of a prefix grown by one element. */
  lemma GroupsGrow(a: seq<int>, i: nat)
    requires 0 < i < |a|
    ensures |Groups(a[..i + 1])| == |Groups(a[..i])| + (if a[i] == a[i - 1] then 0 else 1)
  {
    assert a[..i + 1][..i] == a[..i];
  }

  /** The linked stack with its element count. */
  class Queue {
    var head: Node?
    var size: nat
    /** The values from head to tail: the most recently enqueued first. */
    ghost var Contents: seq<int>

    ghost predicate Valid()
      reads this
    {
      size == |Contents| &&
      if head == null then Contents == [] else head.Valid() && head.content == Contents
    }

    /** queue_create: an empty queue, size 0 and no head. */
    constructor ()
      ensures Valid() && Contents == [] && size == 0 && head == null
    {
      head := null;
      size := 0;
      Contents := [];
    }

    /** enqueue: push at the head. */
    method Enqueue(data: int)
      requires Valid()
      modifies this
      ensures Valid() && Contents == [data] + old(Contents) && size == old(size) + 1
    {
      var n := new Node(data, head);
      head := n;
      size := size + 1;
      Contents := [data] + Contents;
    }

    /** dequeue: pop the head, or None (NULL) when the size is 0. */
    method Dequeue() returns (data: Option<int>)
      requires Valid()
      modifies this
      ensures Valid()
      ensures old(Contents) == [] ==> data == None && Contents == [] && size == 0
      ensures old(Contents) != [] ==> data == Some(old(Contents)[0]) && Contents == old(Contents)[1..]
    {
      if size == 0 {
        return None;
      }
      var n := head;
      data := Some(n.data);
      head := n.next;
      size := size - 1;
      Contents := Contents[1..];
    }

    /** queue_clear: dequeue until dequeue returns NULL. */
    method Clear()
      requires Valid()
      modifies this
      ensures Valid() && Contents == [] && size == 0
    {
      var data := Dequeue();
      while data != None
        invariant Valid()
        invariant data == None ==> Contents == []
        decreases |Contents|, if data == None then 0 else 1
      {
        data := Dequeue();
      }
    }

    /** queue_to_array: the values from head to tail. */
    method ToArray() returns (a: array<int>)
      requires Valid()
      ensures fresh(a) && a[..] == Contents
    {
      a := new int[size];
      var current := head;
      var i := 0;
      while current != null
        invariant 0 <= i <= size && a.Length == size
        invariant a[..i] == Contents[..i]
        invariant current == null ==> i == size
        invariant current != null ==> current.Valid() && current.content == Contents[i..]
        modifies a
        decreases size - i
      {
        a[i] := current.data;
        current := current.next;
        i := i + 1;
      }
    }

    /** queue_product: 0 for an empty queue (not 1), otherwise the product of all elements. */
    method ProductOf() returns (result: int)
      requires Valid()
      ensures Contents == [] ==> result == 0
      ensures Contents != [] ==> result == Product(Contents)
    {
      if size == 0 {
        return 0;
      }
      var a := ToArray();
      result := 1;
      for i := 0 to size
        invariant result == Product(a[..i])
      {
        assert a[..i + 1][..i] == a[..i];
        result := result * a[i];
      }
      assert a[..size] == a[..];
    }

    /**
     * queue_group(q, index): the index-th group of equal values in ascending
     * order, or None (NULL) when the queue is empty or has no such group.
     * The queue itself is left as it was.
     */
    method GroupAtIndex(index: nat) returns (g: Option<Group>)
      requires Valid()
      ensures index < |Groups(Sort(Contents))| ==> g == Some(Groups(Sort(Contents))[index])
      ensures index >= |Groups(Sort(Contents))| ==> g == None
    {
      if size == 0 {
        return None;
      }
      var arr := ToArray();
      g := ScanGroups(Sort(arr[..]), index);
    }
  }

  /**
   * The scan of queue_group over the sorted array a: count the changes of
   * value up to group `index`, then measure that group's run.
   */
  method ScanGroups(a: seq<int>, index: nat) returns (g: Option<Group>)
    requires a != []
    ensures index < |Groups(a)| ==> g == Some(Groups(a)[index])
    ensures index >= |Groups(a)| ==> g == None
  {
    var value := a[0];
    var grpNum: nat := 0;
    var i := 0;
    while i < |a|
      invariant 0 <= i <= |a|
      invariant i > 0 ==> grpNum == |Groups(a[..i])| - 1 < index && value == a[i - 1]
      invariant i == 0 ==> grpNum == 0 && value == a[0]
    {
      if i > 0 {
        GroupsGrow(a, i);
      }
      if a[i] != value {
        grpNum := grpNum + 1;
        value := a[i];
      }
      if grpNum == index {
        var runSize := 0;
        var j := i;
        while j < |a|
          invariant i <= j <= |a| && runSize == j - i
          invariant forall k :: i <= k < j ==> a[k] == a[i]
        {
          if a[j] != value {
            break;
          }
          runSize := runSize + 1;
          j := j + 1;
        }
        GroupAt(a, i, runSize);
        return Some(Group(runSize, value));
      }
      i := i + 1;
    }
    assert a[..i] == a;
    return None;
  }

  /** The groups of the queue depend only on which values it holds, with their multiplicities, not on their order. */
  lemma GroupsIgnoreOrder(s: seq<int>, t: seq<int>)
    requires multiset(s) == multiset(t)
    ensures Groups(Sort(s)) == Groups(Sort(t))
  {
    SortedUnique(Sort(s), Sort(t));
  }

  /** Runs of two 1s, three 2s and four 3s, one after the other, form three groups. */
  lemma GroupsOfThreeRuns(ones: seq<int>, twos: seq<int>, threes: seq<int>)
    requires ones == [1, 1] && twos == [2, 2, 2] && threes == [3, 3, 3, 3]
    ensures Groups(ones + twos + threes) == [Group(2, 1), Group(3, 2), Group(4, 3)]
  {
    GroupsOfConstant(ones, 1);
    GroupsOfConstant(twos, 2);
    GroupsOfConstant(threes, 3);
    GroupsSplit(ones, twos);
    GroupsSplit(ones + twos, threes);
  }

  /** Nine pushes onto an empty queue, spelled out as the head-first list they leave. */
  lemma PushOrder(s: seq<int>)
    requires s == [3] + ([1] + ([3] + ([3] + ([2] + ([2] + ([3] + ([1] + ([2] + []))))))))
    ensures s == [3, 1, 3, 3, 2, 2, 3, 1, 2]
  {
  }

  /** The three runs of the unit test, written out as one sorted list. */
  lemma RunsSpelled(ones: seq<int>, twos: seq<int>, threes: seq<int>)
    requires ones == [1, 1] && twos == [2, 2, 2] && threes == [3, 3, 3, 3]
    ensures ones + twos + threes == [1, 1, 2, 2, 2, 3, 3, 3, 3]
  {
  }

  /**
   * The queue of the last grouping case of the unit test, listed from the
   * head (2, 1, 3, 2, 2, 3, 3, 1, 3 were pushed in that order), sorts into
   * two 1s, three 2s and four 3s, and so has exactly three groups.
   */
  lemma UnitTestGroups(s: seq<int>)
    requires s == [3, 1, 3, 3, 2, 2, 3, 1, 2]
    ensures Sort(s) == [1, 1, 2, 2, 2, 3, 3, 3, 3]
    ensures Groups(Sort(s)) == [Group(2, 1), Group(3, 2), Group(4, 3)]
  {
    var ones, twos, threes := [1, 1], [2, 2, 2], [3, 3, 3, 3];
    RunsSpelled(ones, twos, threes);
    var t := ones + twos + threes;
    assert Sorted(t);
    assert multiset(s) == multiset(t);
    SortedUnique(Sort(s), t);
    GroupsOfThreeRuns(ones, twos, threes);
  }

  /**
   * The last grouping case of the queue unit test: after clearing, push
   * 2, 1, 3, 2, 2, 3, 3, 1, 3 and ask for groups 0, 1, 2 and 3.
   */
  method GroupUnitTest() returns (g0: Option<Group>, g1: Option<Group>, g2: Option<Group>, g3: Option<Group>)
    ensures g0 == Some(Group(2, 1)) && g1 == Some(Group(3, 2)) && g2 == Some(Group(4, 3)) && g3 == None
  {
    var q := new Queue();
    q.Clear();
    q.Enqueue(2);
    q.Enqueue(1);
    q.Enqueue(3);
    q.Enqueue(2);
    q.Enqueue(2);
    q.Enqueue(3);
    q.Enqueue(3);
    q.Enqueue(1);
    q.Enqueue(3);
    PushOrder(q.Contents);
    UnitTestGroups(q.Contents);
    g0 := q.GroupAtIndex(0);
    g1 := q.GroupAtIndex(1);
    g2 := q.GroupAtIndex(2);
    g3 := q.GroupAtIndex(3);
  }

}
