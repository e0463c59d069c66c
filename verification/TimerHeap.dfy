/**
 The indexed binary min-heap of timers: a vector `c`, a count `n` and the map
 `fds` from descriptor to position, which the sift loops keep in lockstep.
 It refines a finite map from descriptor to timer.
 */
module TimerHeap {
  import opened Common

  /** What a timer runs: nothing, or closing the connection on a descriptor. */
  datatype Callback = NoCallback | CloseConnection(fd: int)

  /** `timestamp` is the deadline in microseconds. */
  datatype Timer = Timer(fd: int, timestamp: nat, callback: Callback) {
    /** `operator<`, which is reversed: the later deadline is the lesser timer. */
    predicate Less(other: Timer) { other.timestamp < timestamp }
  }

  function Parent(k: nat): nat
    requires k > 0
  {
    (k - 1) / 2
  }

  /** The value `(i - 1) / 2` of the 64-bit `size_t i`, which wraps at 0. */
  function SizeTParent(i: nat): nat {
    if i == 0 then 0xFFFF_FFFF_FFFF_FFFF / 2 else (i - 1) / 2
  }

  /** The first `n` timers of `w` are those of `t`, and `f` maps each descriptor to its position. */
  ghost predicate Represents(w: seq<Timer>, n: nat, f: map<int, nat>, t: map<int, Timer>) {
    && n <= |w|
    && (forall fd :: fd in t ==> fd in f && f[fd] < n && w[f[fd]] == t[fd] && t[fd].fd == fd)
    && (forall k :: 0 <= k < n ==> w[k].fd in t && f[w[k].fd] == k)
  }

  /** Every parent is due no later than its child, leaving out the edges below `hole` and the one into `top`. */
  ghost predicate OrderedExcept(w: seq<Timer>, n: nat, hole: int, top: int)
    requires n <= |w|
  {
    forall k :: 1 <= k < n && Parent(k) != hole && k != top ==> w[Parent(k)].timestamp <= w[k].timestamp
  }

  ghost predicate Ordered(w: seq<Timer>, n: nat)
    requires n <= |w|
  {
    forall k :: 1 <= k < n ==> w[Parent(k)].timestamp <= w[k].timestamp
  }

  /** The timers below `i` are due no earlier than the one above `i`. */
  ghost predicate Bridged(w: seq<Timer>, n: nat, i: nat)
    requires n <= |w|
  {
    i > 0 && i < n ==> forall k :: 1 <= k < n && Parent(k) == i ==> w[Parent(i)].timestamp <= w[k].timestamp
  }

  /** The root of a heap is due first. */
  lemma {:induction false} RootIsLeast(w: seq<Timer>, n: nat, k: nat)
    requires n <= |w| && Ordered(w, n) && k < n
    ensures w[0].timestamp <= w[k].timestamp
    decreases k
  {
    if k > 0 {
      RootIsLeast(w, n, Parent(k));
    }
  }

  function Swapped(w: seq<Timer>, i: nat, j: nat): seq<Timer>
    requires i < |w| && j < |w|
  {
    w[i := w[j]][j := w[i]]
  }

  lemma SwapRepresents(w: seq<Timer>, n: nat, f: map<int, nat>, t: map<int, Timer>, i: nat, j: nat)
    requires Represents(w, n, f, t) && i < n && j < n
    ensures Represents(Swapped(w, i, j), n, f[w[j].fd := i][w[i].fd := j], t)
    ensures w[i].fd in f && w[j].fd in f
  {
  }

  /** A turn of a sift: the timer at `j` moves into the hole at `i`, and the hole, where `v` belongs, to `j`. */
  lemma SlideRepresents(c: seq<Timer>, n: nat, f: map<int, nat>, t: map<int, Timer>, i: nat, j: nat, v: Timer)
    requires n <= |c| && i < n && j < n && i != j && Represents(c[i := v], n, f[v.fd := i], t)
    ensures var u := c[i := c[j]][j := v];
            u == Swapped(c[i := v], i, j) && Represents(u, n, f[c[j].fd := i][v.fd := j], t)
    ensures f.Keys + {v.fd} == f.Keys + {v.fd, c[j].fd}
  {
    var w := c[i := v];
    SwapRepresents(w, n, f[v.fd := i], t, i, j);
    assert f[v.fd := i][w[j].fd := i][v.fd := j] == f[c[j].fd := i][v.fd := j];
    assert c[i := c[j]][j := v] == Swapped(w, i, j);
  }

  /** One turn of the upward sift. */
  lemma UpStep(w: seq<Timer>, n: nat, i: nat)
    requires n <= |w| && 0 < i < n && OrderedExcept(w, n, -1, i) && Bridged(w, n, i)
    requires w[i].timestamp <= w[Parent(i)].timestamp
    ensures var u := Swapped(w, i, Parent(i)); OrderedExcept(u, n, -1, Parent(i)) && Bridged(u, n, Parent(i))
  {
  }

  lemma UpDone(w: seq<Timer>, n: nat, i: nat)
    requires n <= |w| && OrderedExcept(w, n, -1, i)
    requires 0 < i < n ==> w[Parent(i)].timestamp <= w[i].timestamp
    ensures Ordered(w, n)
  {
  }

  /** The timer at `i` is already where the map says. */
  lemma Reindex(w: seq<Timer>, n: nat, f: map<int, nat>, t: map<int, Timer>, i: nat)
    requires Represents(w, n, f, t) && i < |w| && (i < n || n == 0)
    ensures Represents(w, n, f[w[i].fd := i], t)
    ensures i < n ==> w[i].fd in f
  {
  }

  predicate IsChild(k: nat, j: nat, n: nat) { 1 <= k < n && Parent(k) == j }

  /** The downward sift that started at `top` has its timer at `j`. */
  ghost predicate Sinking(w: seq<Timer>, n: nat, top: nat, j: nat)
    requires n <= |w|
  {
    && OrderedExcept(w, n, j, top) && Bridged(w, n, j) && Bridged(w, n, top)
    && (0 < top < j < n ==> w[Parent(top)].timestamp <= w[top].timestamp)
    && (0 < top < j < n ==> w[Parent(top)].timestamp <= w[j].timestamp)
  }

  lemma DownStart(w: seq<Timer>, n: nat, i: nat)
    requires n <= |w| && OrderedExcept(w, n, i, i) && Bridged(w, n, i)
    ensures Sinking(w, n, i, i)
  {
  }

  /** One turn of the downward sift: `m` is the child of `j` due first. */
  lemma DownStep(w: seq<Timer>, n: nat, top: nat, j: nat, m: nat)
    requires n <= |w| && top <= j && Sinking(w, n, top, j) && IsChild(m, j, n)
    requires forall k: nat :: IsChild(k, j, n) ==> w[m].timestamp <= w[k].timestamp
    requires w[m].timestamp <= w[j].timestamp
    ensures Sinking(Swapped(w, j, m), n, top, m)
  {
    var u := Swapped(w, j, m);
    assert OrderedExcept(u, n, m, top) by {
      forall k | 1 <= k < n && Parent(k) != m && k != top
        ensures u[Parent(k)].timestamp <= u[k].timestamp
      {
        if Parent(k) == j {
          assert IsChild(k, j, n);
        }
      }
    }
  }

  lemma DownDone(w: seq<Timer>, n: nat, top: nat, j: nat)
    requires n <= |w| && Sinking(w, n, top, j)
    requires forall k: nat :: IsChild(k, j, n) ==> w[j].timestamp <= w[k].timestamp
    ensures OrderedExcept(w, n, -1, top) && Bridged(w, n, top)
    ensures 0 < top < j < n ==> w[Parent(top)].timestamp <= w[top].timestamp
    ensures 0 < top < j < n ==> w[Parent(top)].timestamp <= w[j].timestamp
  {
    forall k | 1 <= k < n && k != top
      ensures w[Parent(k)].timestamp <= w[k].timestamp
    {
      if Parent(k) == j {
        assert IsChild(k, j, n);
      }
    }
  }

  /** The children of `j` are at `2j + 1` and `2j + 2`. */
  lemma Children(j: nat, n: nat)
    ensures forall k: nat :: IsChild(k, j, n) ==> k == 2 * j + 1 || k == 2 * j + 2
    ensures 2 * j + 1 < n ==> IsChild(2 * j + 1, j, n)
    ensures 2 * j + 2 < n ==> IsChild(2 * j + 2, j, n)
  {
  }

  lemma NoChildren(j: nat, n: nat)
    requires 2 * j + 1 >= n
    ensures forall k: nat :: !IsChild(k, j, n)
  {
    Children(j, n);
  }

  class TimerHeap {
    var c: seq<Timer>
    var n: nat
    var fds: map<int, nat>

    constructor ()
      ensures Valid() && Contents() == map[]
    {
      c, n, fds := [], 0, map[];
    }

    /** `n` counts `c`, and `fds` is the exact inverse of the positions. */
    ghost predicate Indexed()
      reads this
    {
      && n == |c|
      && (forall fd :: fd in fds ==> fds[fd] < n && c[fds[fd]].fd == fd)
      && (forall k :: 0 <= k < n ==> c[k].fd in fds && fds[c[k].fd] == k)
    }

    ghost predicate Valid()
      reads this
    {
      Indexed() && Ordered(c, n)
    }

    /** The finite map the heap stands for. */
    ghost function Contents(): (t: map<int, Timer>)
      reads this
      requires Indexed()
      ensures Represents(c, n, fds, t) && t.Keys == fds.Keys
    {
      map fd | fd in fds :: c[fds[fd]]
    }

    /**
     Moves the timer at `i` up, among the first `size`. Equal deadlines move too.
     Everything but the edge into `i` must be in order already.
     */
    method UpAdjust(i: nat, ghost size: nat, ghost t: map<int, Timer>)
      requires i < size <= |c|
      requires Represents(c, size, fds[c[i].fd := i], t)
      requires OrderedExcept(c, size, -1, i) && Bridged(c, size, i)
      modifies this`c, this`fds
      ensures |c| == old(|c|) && (forall k :: size <= k < |c| ==> c[k] == old(c[k]))
      ensures fds.Keys == old(fds.Keys + {c[i].fd})
      ensures Represents(c, size, fds, t) && Ordered(c, size)
      ensures c[i] == old(if i > 0 && c[i].timestamp <= c[Parent(i)].timestamp then c[Parent(i)] else c[i])
    {
      hide Represents;
      hide OrderedExcept;
      hide Bridged;
      hide Ordered;
      var x := i;
      var i := i;
      var parent := SizeTParent(i);
      var v := c[i];
      ghost var w, keys := c, fds.Keys + {v.fd};
      while true
        invariant i <= x < size <= |c| == old(|c|) && parent == SizeTParent(i) && w == c[i := v]
        invariant forall k :: size <= k < |c| ==> w[k] == old(c[k])
        invariant if i == x then c == old(c) else x > 0 && c[x] == old(c[Parent(x)]) && !v.Less(old(c[Parent(x)]))
        invariant fds.Keys + {v.fd} == keys
        invariant Represents(w, size, fds[v.fd := i], t)
        invariant OrderedExcept(w, size, -1, i) && Bridged(w, size, i)
        decreases i
      {
        if i <= 0 {
          break;
        }
        if v.Less(c[parent]) {
          break;
        }
        UpStep(w, size, i);
        SlideRepresents(c, size, fds, t, i, parent, v);
        fds := fds[c[parent].fd := i];
        c := c[i := c[parent]];
        i := parent;
        parent := SizeTParent(i);
        w := c[i := v];
      }
      UpDone(w, size, i);
      c := c[i := v];
      fds := fds[c[i].fd := i];
    }

    /** Which child of `i` is due first; `w` is `c` with the hole at `i` filled. */
    function EarlierChild(i: nat, ghost w: seq<Timer>): (m: nat)
      reads this
      requires n <= |c| == |w| && 2 * i + 1 < n && (forall k :: i < k < n ==> c[k] == w[k])
      ensures i < m && IsChild(m, i, n) && c[m] == w[m]
      ensures m == if 2 * i + 2 < n && w[2 * i + 2].timestamp < w[2 * i + 1].timestamp then 2 * i + 2 else 2 * i + 1
      ensures forall k: nat :: IsChild(k, i, n) ==> w[m].timestamp <= w[k].timestamp
    {
      Children(i, n);
      var child := 2 * i + 1;
      if child + 1 < n && c[child].Less(c[child + 1]) then child + 1 else child
    }

    /**
     Moves the timer at `i` down. The result is `x > i` for an `i` that only grows,
     so it is always false, and callers always go on to `UpAdjust`.
     */
    method DownAdjust(i: nat, ghost size: nat, ghost t: map<int, Timer>) returns (b: bool)
      requires i < size <= |c| && n <= size && (i < n || i == n)
      requires Represents(c, size, fds[c[i].fd := i], t)
      requires OrderedExcept(c, n, i, i) && Bridged(c, n, i)
      modifies this`c, this`fds
      ensures !b
      ensures |c| == old(|c|) && (forall k :: n <= k < |c| ==> c[k] == old(c[k]))
      ensures fds.Keys == old(fds.Keys + {c[i].fd})
      ensures Represents(c, size, fds, t)
      ensures OrderedExcept(c, n, -1, i) && Bridged(c, n, i)
      ensures i == n ==> c == old(c)
      ensures 0 < i < n ==> (c[Parent(i)].timestamp <= c[i].timestamp
                             <==> old(c[Parent(i)].timestamp) <= old(c[i].timestamp))
    {
      hide Represents;
      hide Sinking;
      hide OrderedExcept;
      hide Bridged;
      hide IsChild;
      var x := i;
      var i := i;
      var child := i * 2 + 1;
      var v := c[i];
      ghost var w, keys, first := c, fds.Keys + {v.fd}, c;
      DownStart(w, n, x);
      while true
        invariant n <= size <= |c| == |first| && x <= i < size && (i < n || i == n == x) && child == i * 2 + 1
        invariant w == c[i := v]
        invariant forall k :: (0 <= k < x || n <= k < |c|) ==> w[k] == first[k]
        invariant i == x ==> w == first
        invariant fds.Keys + {v.fd} == keys
        invariant Represents(w, size, fds[v.fd := i], t)
        invariant Sinking(w, n, x, i)
        decreases |c| - i
      {
        if child >= n {
          NoChildren(i, n);
          break;
        }
        child := EarlierChild(i, w);
        if c[child].Less(v) {
          break;
        }
        DownStep(w, n, x, i, child);
        SlideRepresents(c, size, fds, t, i, child, v);
        fds := fds[c[child].fd := i];
        c := c[i := c[child]];
        i := child;
        child := i * 2 + 1;
        w := c[i := v];
      }
      DownDone(w, n, x, i);
      c := c[i := v];
      fds := fds[c[i].fd := i];
      b := x > i;
    }

    /** `if (!downAdjust(i)) upAdjust(i)`; `i` is in the heap, or just behind it. */
    method Sift(i: nat, ghost size: nat, ghost t: map<int, Timer>)
      requires i < size <= |c| && (if i == n then size == n + 1 else size == n)
      requires Represents(c, size, fds[c[i].fd := i], t)
      requires OrderedExcept(c, n, i, i) && Bridged(c, n, i)
      requires i == n ==> OrderedExcept(c, size, -1, i) && Bridged(c, size, i)
      modifies this`c, this`fds
      ensures |c| == old(|c|) && (forall k :: size <= k < |c| ==> c[k] == old(c[k]))
      ensures fds.Keys == old(fds.Keys + {c[i].fd})
      ensures Represents(c, size, fds, t) && Ordered(c, size)
      ensures i == n ==> c[i] == old(if i > 0 && c[i].timestamp <= c[Parent(i)].timestamp then c[Parent(i)] else c[i])
    {
      hide Represents;
      hide OrderedExcept;
      hide Ordered;
      hide Bridged;
      var moved := DownAdjust(i, size, t);
      if !moved {
        Reindex(c, size, fds, t, i);
        UpAdjust(i, size, t);
      }
    }

    /** Inserts a timer, or replaces deadline and callback of the one on its descriptor. */
    method Push(timer: Timer)
      requires Valid()
      modifies this
      ensures Valid() && Contents() == old(Contents())[timer.fd := timer]
    {
      if timer.fd !in fds {
        PushNew(timer);
      } else {
        PushExisting(timer);
      }
    }

    method PushNew(timer: Timer)
      requires Valid() && timer.fd !in fds
      modifies this
      ensures Valid() && Contents() == old(Contents())[timer.fd := timer]
    {
      hide OrderedExcept;
      hide Ordered;
      hide Bridged;
      ghost var t := Contents()[timer.fd := timer];
      PushOrder(c, timer, n);
      PushRepresents(c, n, fds, Contents(), timer);
      hide Represents;
      c := c + [timer];
      fds := fds[timer.fd := n];
      n := n + 1;
      if n > 1 {
        Reindex(c, n, fds, t, n - 1);
        UpAdjust(n - 1, n, t);
      }
      ContentsIs(t);
    }

    method PushExisting(timer: Timer)
      requires Valid() && timer.fd in fds
      modifies this
      ensures Valid() && Contents() == old(Contents())[timer.fd := timer]
    {
      hide OrderedExcept;
      hide Ordered;
      hide Bridged;
      ghost var t := Contents()[timer.fd := timer];
      var i := fds[timer.fd];
      ChangeOrder(c, n, i, timer);
      ChangeRepresents(c, n, fds, Contents(), i, timer);
      c := c[i := timer];
      hide Represents;
      Sift(i, n, t);
      ContentsIs(t);
    }

    /** A structure that represents `t` and nothing else has contents `t`. */
    lemma ContentsIs(t: map<int, Timer>)
      requires n == |c| && Represents(c, n, fds, t) && fds.Keys == t.Keys
      ensures Indexed() && Contents() == t
    {
      assert Indexed();
      assert forall fd :: fd in t ==> Contents()[fd] == t[fd];
    }

    lemma NoTimers()
      requires Indexed()
      ensures n == 0 <==> Contents() == map[]
    {
      if n == 0 {
        assert forall fd :: fd !in fds;
        assert fds.Keys == {};
        assert Contents().Keys == {};
      }
      assert n > 0 ==> c[0].fd in Contents();
    }

    method Empty() returns (b: bool)
      requires Valid()
      ensures b <==> Contents() == map[]
    {
      b := n == 0;
      NoTimers();
    }

    /** The timer due first; None stands for the exception on an empty heap. */
    function Top(): (r: Option<Timer>)
      reads this
      requires Valid()
      ensures r.None? <==> Contents() == map[]
      ensures r.Some? ==> r.value.fd in Contents() && Contents()[r.value.fd] == r.value
      ensures r.Some? ==> forall fd :: fd in Contents() ==> r.value.timestamp <= Contents()[fd].timestamp
    {
      NoTimers();
      if n == 0 then None
      else
        assert forall fd :: fd in Contents() ==> c[0].timestamp <= Contents()[fd].timestamp by {
          forall fd | fd in Contents()
            ensures c[0].timestamp <= Contents()[fd].timestamp
          {
            RootIsLeast(c, n, fds[fd]);
          }
        }
        Some(c[0])
    }

    /** Removes the timer due first. False stands for the exception on an empty heap. */
    method Pop() returns (ok: bool)
      requires Valid()
      modifies this
      ensures Valid() && (ok <==> old(Contents()) != map[])
      ensures Contents() == if ok then old(Contents()) - {old(Top()).value.fd} else map[]
    {
      NoTimers();
      if n == 0 {
        return false;
      }
      Del(0);
      ok := true;
    }

    /** Which timer `del` removes at `i`. */
    function Removed(i: nat): Timer
      reads this
      requires n <= |c| && i < n
    {
      if i + 1 == n && i > 0 && c[i].timestamp <= c[Parent(i)].timestamp then c[Parent(i)] else c[i]
    }

    /**
     Removes the timer at `i`, for any `i`; the code only deletes the root. The last of
     several is sifted back in when it is due together with its parent, which then goes
     in its stead.
     */
    method Del(i: nat)
      requires Valid() && (n == 0 || i < n)
      modifies this
      ensures Valid()
      ensures Contents() == old(if n == 0 then map[] else Contents() - {Removed(i).fd})
    {
      NoTimers();
      if n == 0 {
        return;
      }
      ghost var all := Contents();
      SwapOut(i, all);
      EraseLast(all);
    }

    /** The first half of `del`: afterwards the timer to go is behind the heap. */
    method SwapOut(i: nat, ghost all: map<int, Timer>)
      requires i < n == |c| && Ordered(c, n) && Represents(c, n, fds, all) && fds.Keys == all.Keys
      modifies this
      ensures |c| == n + 1 && fds.Keys == all.Keys && c[n] == old(Removed(i)) && c[n].fd in all
      ensures Represents(c, n, fds, all - {c[n].fd}) && Ordered(c, n)
    {
      ghost var size, t := DeleteReady(c, n, fds, all, i);
      RemovedIn(c, n, fds, all, i);
      hide Represents;
      hide OrderedExcept;
      hide Ordered;
      hide Bridged;
      c := Swapped(c, i, n - 1);
      n := n - 1;
      Sift(i, size, t);
      LastOut(c, n, fds, all, size, t);
    }

    /** Drops the dead timer behind the others. */
    method EraseLast(ghost all: map<int, Timer>)
      requires |c| == n + 1 && Represents(c, n, fds, all - {c[n].fd}) && Ordered(c, n)
      requires c[n].fd in all && fds.Keys == all.Keys
      modifies this`c, this`fds
      ensures Valid() && Contents() == all - {old(c[n].fd)}
    {
      hide Ordered;
      hide Represents;
      ghost var t := all - {c[n].fd};
      EraseRepresents(c, n, fds, t);
      fds := fds - {c[|c| - 1].fd};
      c := c[..|c| - 1];
      ContentsIs(t);
    }

    /**
     Resets the deadline of the timer on a descriptor, if there is one, and sifts
     down only. The map is updated in any case; the heap order survives exactly
     when the new deadline is not before that of the timer above, and so whenever
     it is not earlier than the old one.
     */
    method Adjust(timer: Timer)
      requires Valid()
      modifies this
      ensures Indexed()
      ensures Contents() == if timer.fd in old(Contents())
                            then old(Contents()[timer.fd := Contents()[timer.fd].(timestamp := timer.timestamp)])
                            else old(Contents())
      ensures Ordered(c, n) <==>
              || timer.fd !in old(fds)
              || old(fds[timer.fd]) == 0
              || old(c[Parent(fds[timer.fd])].timestamp) <= timer.timestamp
      ensures (timer.fd in old(Contents()) ==> old(Contents()[timer.fd].timestamp) <= timer.timestamp) ==> Valid()
    {
      hide Bridged;
      hide OrderedExcept;
      if timer.fd in fds {
        var i := fds[timer.fd];
        var reset := c[i].(timestamp := timer.timestamp);
        ghost var t := Contents()[timer.fd := reset];
        ChangeOrder(c, n, i, reset);
        ChangeRepresents(c, n, fds, Contents(), i, reset);
        if i > 0 {
          EdgeInto(c, n, i);
        }
        c := c[i := reset];
        hide Represents;
        hide Ordered;
        var _ := DownAdjust(i, n, t);
        OrderedIf(c, n, i);
        ContentsIs(t);
      }
    }
  }

  /** A heap of two timers whose second becomes due before the first: `Adjust` leaves it out of order. */
  method AdjustBreaksOrder() returns (heap: TimerHeap)
    ensures fresh(heap) && heap.Indexed() && !heap.Valid()
    ensures heap.Contents() == map[1 := Timer(1, 10, NoCallback), 2 := Timer(2, 5, NoCallback)]
  {
    hide Ordered;
    hide Represents;
    heap := new TimerHeap();
    heap.Push(Timer(1, 10, NoCallback));
    heap.Push(Timer(2, 20, NoCallback));
    TwoTimers(heap);
    hide TimerHeap.Indexed;
    heap.Adjust(Timer(2, 5, NoCallback));
  }

  lemma TwoTimers(heap: TimerHeap)
    requires heap.Valid()
    requires heap.Contents() == map[1 := Timer(1, 10, NoCallback), 2 := Timer(2, 20, NoCallback)]
    ensures 2 in heap.fds && heap.fds[2] == 1 && heap.n == 2 && heap.c[0].timestamp == 10
  {
    hide Ordered;
    var t := heap.Contents();
    var a, b := heap.fds[1], heap.fds[2];
    assert heap.c[a] == t[1] && heap.c[b] == t[2];
    assert forall k :: 0 <= k < heap.n ==> heap.c[k].fd in t && heap.fds[heap.c[k].fd] == k;
    assert heap.n > 2 ==> heap.c[0].fd in t && heap.c[1].fd in t && heap.c[2].fd in t;
    RootIsLeast(heap.c, heap.n, a);
  }

  lemma EdgeInto(c: seq<Timer>, n: nat, i: nat)
    requires n <= |c| && Ordered(c, n) && 0 < i < n
    ensures c[Parent(i)].timestamp <= c[i].timestamp
  {
  }

  /** All that a downward sift leaves open is the edge into its starting point. */
  lemma OrderedIf(c: seq<Timer>, n: nat, i: nat)
    requires n <= |c| && i < n && OrderedExcept(c, n, -1, i)
    ensures Ordered(c, n) <==> i == 0 || c[Parent(i)].timestamp <= c[i].timestamp
  {
  }

  /** Seen from its last position, a heap is in order but for the edge into it. */
  lemma LastEdge(c: seq<Timer>, n: nat)
    requires n < |c| && Ordered(c, n + 1)
    ensures OrderedExcept(c, n, n, n) && Bridged(c, n, n)
    ensures OrderedExcept(c, n + 1, -1, n) && Bridged(c, n + 1, n)
  {
  }

  /** A heap without its last position, whether that still counted or not. */
  lemma LastOut(c: seq<Timer>, n: nat, f: map<int, nat>, all: map<int, Timer>, size: nat, t: map<int, Timer>)
    requires n < |c| && c[n].fd in all && n <= size <= n + 1
    requires Represents(c, size, f, t) && Ordered(c, size)
    requires t == if size == n then all - {c[n].fd} else all
    ensures Represents(c, n, f, all - {c[n].fd}) && Ordered(c, n)
  {
  }

  /** Every timer of a heap is one of the map. */
  lemma RemovedIn(c: seq<Timer>, n: nat, f: map<int, nat>, t: map<int, Timer>, i: nat)
    requires Represents(c, n, f, t) && i < n
    ensures c[i].fd in t && (i > 0 ==> c[Parent(i)].fd in t)
  {
  }

  /** Dropping the dead timer behind the others and its entry in the map. */
  lemma EraseRepresents(c: seq<Timer>, n: nat, f: map<int, nat>, t: map<int, Timer>)
    requires |c| == n + 1 && Represents(c, n, f, t) && c[n].fd !in t && Ordered(c, n)
    ensures Represents(c[..n], n, f - {c[n].fd}, t) && Ordered(c[..n], n)
    ensures (f - {c[n].fd}).Keys == f.Keys - {c[n].fd}
  {
  }

  lemma PushOrder(c: seq<Timer>, timer: Timer, n: nat)
    requires n == |c| && Ordered(c, n)
    ensures OrderedExcept(c + [timer], n + 1, -1, n) && Bridged(c + [timer], n + 1, n)
    ensures n == 0 ==> Ordered(c + [timer], n + 1)
  {
  }

  lemma PushRepresents(c: seq<Timer>, n: nat, f: map<int, nat>, t: map<int, Timer>, timer: Timer)
    requires n == |c| && Represents(c, n, f, t) && timer.fd !in t
    ensures Represents(c + [timer], n + 1, f[timer.fd := n], t[timer.fd := timer])
  {
  }

  /** Changing one timer breaks at most the edges around it. */
  lemma ChangeOrder(c: seq<Timer>, n: nat, i: nat, timer: Timer)
    requires n <= |c| && i < n && Ordered(c, n)
    ensures OrderedExcept(c[i := timer], n, i, i) && Bridged(c[i := timer], n, i)
  {
  }

  lemma ChangeRepresents(c: seq<Timer>, n: nat, f: map<int, nat>, t: map<int, Timer>, i: nat, timer: Timer)
    requires Represents(c, n, f, t) && i < n && c[i].fd == timer.fd
    ensures Represents(c[i := timer], n, f[timer.fd := i], t[timer.fd := timer])
  {
  }

  /**
   After the swap the last timer is at `i`, which breaks at most the edges around `i`.
   `size` and `u` say how much still counts: all, when the last one is to go itself.
   */
  lemma DeleteReady(c: seq<Timer>, n: nat, f: map<int, nat>, t: map<int, Timer>, i: nat)
    returns (size: nat, u: map<int, Timer>)
    requires i < n == |c| && Ordered(c, n) && Represents(c, n, f, t) && f.Keys == t.Keys
    ensures size == (if i + 1 == n then n else n - 1) && u == if i + 1 == n then t else t - {c[i].fd}
    ensures var w := Swapped(c, i, n - 1);
            && OrderedExcept(w, n - 1, i, i) && Bridged(w, n - 1, i)
            && w[n - 1] == c[i] && f.Keys + {w[i].fd} == t.Keys
            && Represents(w, size, f[w[i].fd := i], u)
            && (i + 1 == n ==> w == c && OrderedExcept(w, n, -1, i) && Bridged(w, n, i))
  {
    DeleteOrder(c, n, i);
    if i + 1 == n {
      LastEdge(c, i);
      Reindex(c, n, f, t, i);
      size, u := n, t;
      assert Swapped(c, i, n - 1) == c;
    } else {
      size, u := n - 1, t - {c[i].fd};
      DeleteRepresents(c, n, f, t, i);
    }
  }

  /** Moving the last timer into `i` breaks at most the edges around `i`. */
  lemma DeleteOrder(c: seq<Timer>, n: nat, i: nat)
    requires 0 < n == |c| && i < n && Ordered(c, n)
    ensures var w := Swapped(c, i, n - 1); OrderedExcept(w, n - 1, i, i) && Bridged(w, n - 1, i)
  {
  }

  lemma DeleteRepresents(c: seq<Timer>, n: nat, f: map<int, nat>, t: map<int, Timer>, i: nat)
    requires 0 < n == |c| && i < n && Represents(c, n, f, t) && (i == 0 || i + 1 < n)
    ensures var w := Swapped(c, i, n - 1);
            && Represents(w, n - 1, f[w[i].fd := i], t - {c[i].fd})
            && w[n - 1].fd == c[i].fd && w[i].fd in f && c[i].fd in t
  {
  }
}
