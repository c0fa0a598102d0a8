/** The open-file list of kernel/fd.c: a linked list of nodes that refines a map from descriptors to entries. */
module FdTable {
  import opened Common

  datatype Binding = Binding(fd: int, entry: nat)

  function ViewOf(bs: seq<Binding>): map<int, nat> {
    if bs == [] then map[] else ViewOf(bs[1..])[bs[0].fd := bs[0].entry]
  }

  /** Newest first: descriptor numbers strictly decrease along the list and stay below next. */
  ghost predicate Decreasing(bs: seq<Binding>, next: int) {
    && (forall i | 0 <= i < |bs| :: bs[i].fd < next)
    && (forall i, j | 0 <= i < j < |bs| :: bs[j].fd < bs[i].fd)
  }

  lemma {:induction false} ViewKeys(bs: seq<Binding>, fd: int)
    ensures fd in ViewOf(bs) <==> exists i :: 0 <= i < |bs| && bs[i].fd == fd
  {
    if bs != [] {
      ViewKeys(bs[1..], fd);
      if fd in ViewOf(bs[1..]) {
        var i :| 0 <= i < |bs[1..]| && bs[1..][i].fd == fd;
        assert bs[i + 1].fd == fd;
      }
      if i :| 0 <= i < |bs| && bs[i].fd == fd {
        assert i > 0 ==> bs[1..][i - 1].fd == fd;
      }
    }
  }

  /** Each binding of the list is a binding of the map. */
  lemma {:induction false} ViewAt(bs: seq<Binding>, next: int, k: nat)
    requires Decreasing(bs, next) && k < |bs|
    ensures bs[k].fd in ViewOf(bs) && ViewOf(bs)[bs[k].fd] == bs[k].entry
  {
    if k > 0 {
      assert bs[1..][k - 1] == bs[k];
      ViewAt(bs[1..], next, k - 1);
    }
  }

  /** Taking one node out of the list removes one binding and no other. */
  lemma {:induction false} ViewWithout(bs: seq<Binding>, next: int, k: nat)
    requires Decreasing(bs, next) && k < |bs|
    ensures ViewOf(Without(bs, k)) == ViewOf(bs) - {bs[k].fd}
  {
    if k == 0 {
      assert bs[..0] + bs[1..] == bs[1..];
      ViewKeys(bs[1..], bs[0].fd);
    } else {
      ViewWithout(bs[1..], next, k - 1);
      assert (bs[..k] + bs[k + 1..])[1..] == bs[1..][..k - 1] + bs[1..][k..];
    }
  }

  /** fd_node_t; a file entry is named by its index in the table of kernel/fs.c. */
  class FdNode {
    var fd: int
    var entry: nat
    var next: FdNode?

    constructor (fd: int, entry: nat, next: FdNode?)
      ensures this.fd == fd && this.entry == entry && this.next == next
    {
      this.fd, this.entry, this.next := fd, entry, next;
    }
  }

  ghost predicate NodesLinked(ns: seq<FdNode>)
    reads ns
  {
    && (forall i {:trigger ns[i].next} | 0 <= i < |ns| - 1 :: ns[i].next == ns[i + 1])
    && (ns != [] ==> ns[|ns| - 1].next == null)
  }

  ghost predicate Holds(ns: seq<FdNode>, bs: seq<Binding>)
    reads ns
  {
    && |ns| == |bs|
    && forall i | 0 <= i < |ns| :: ns[i].fd == bs[i].fd && ns[i].entry == bs[i].entry
  }

  function Without<T>(s: seq<T>, k: nat): seq<T>
    requires k < |s|
  {
    s[..k] + s[k + 1..]
  }

  lemma DecreasingWithout(bs: seq<Binding>, next: int, k: nat)
    requires Decreasing(bs, next) && k < |bs|
    ensures Decreasing(Without(bs, k), next)
  {
    assert forall i | 0 <= i < |bs| - 1 :: Without(bs, k)[i] == bs[if i < k then i else i + 1];
  }

  lemma NodesDiffer(ns: seq<FdNode>, bs: seq<Binding>, next: int, k: int)
    requires Holds(ns, bs) && Decreasing(bs, next) && k < |ns|
    ensures 0 <= k ==> forall i | 0 <= i < |ns| && i != k :: ns[i] != ns[k]
  {
    assert 0 <= k ==> forall i | 0 <= i < |ns| && i != k :: bs[i].fd != bs[k].fd;
  }

  lemma HoldsWithout(ns: seq<FdNode>, bs: seq<Binding>, k: nat)
    requires Holds(ns, bs) && k < |ns|
    ensures Holds(Without(ns, k), Without(bs, k))
  {
  }

  lemma NodesLinkedWithout(ns: seq<FdNode>, k: nat)
    requires k < |ns|
    requires forall i {:trigger ns[i].next} | 0 <= i < |ns| && i != k - 1 ::
               ns[i].next == if i + 1 < |ns| then ns[i + 1] else null
    requires k > 0 ==> ns[k - 1].next == if k + 1 < |ns| then ns[k + 1] else null
    ensures NodesLinked(Without(ns, k))
  {
    assert forall i | 0 <= i < |ns| - 1 :: Without(ns, k)[i] == ns[if i < k then i else i + 1];
  }

  lemma ViewPrepended(b: Binding, bs: seq<Binding>)
    ensures ViewOf([b] + bs) == ViewOf(bs)[b.fd := b.entry]
  {
    assert ([b] + bs)[1..] == bs;
  }

  lemma DecreasingPrepended(bs: seq<Binding>, next: int, entry: nat)
    requires Decreasing(bs, next)
    ensures Decreasing([Binding(next, entry)] + bs, next + 1)
    ensures forall i | 0 <= i < |bs| :: bs[i].fd != next
  {
  }

  lemma NodesPrepended(node: FdNode, ns: seq<FdNode>, bs: seq<Binding>)
    requires NodesLinked(ns) && Holds(ns, bs) && node.next == if ns == [] then null else ns[0]
    ensures NodesLinked([node] + ns) && Holds([node] + ns, [Binding(node.fd, node.entry)] + bs)
  {
    var all := [node] + ns;
    assert forall i | 0 < i < |all| :: all[i] == ns[i - 1];
  }

  class FdList {
    var head: FdNode?              // fd_list
    var nextFd: int
    ghost var nodes: seq<FdNode>   // the list, front first
    ghost var open: seq<Binding>   // what its nodes hold

    ghost function NodeAt(i: int): FdNode?
      reads this
    {
      if 0 <= i < |nodes| then nodes[i] else null
    }

    ghost predicate Valid()
      reads this, nodes
    {
      head == NodeAt(0) && NodesLinked(nodes) && Holds(nodes, open) && Decreasing(open, nextFd)
    }

    ghost function View(): map<int, nat>
      reads this
    {
      ViewOf(open)
    }

    constructor ()
      ensures Valid() && View() == map[] && nextFd == 0 && nodes == []
    {
      head, nextFd, nodes, open := null, 0, [], [];
    }

    /** create_fd */
    method Create(entry: nat) returns (fd: int)
      requires Valid()
      modifies this
      ensures Valid()
      ensures fd == old(nextFd) && nextFd == old(nextFd) + 1
      ensures fd !in old(View()) && View() == old(View())[fd := entry]
      ensures |nodes| == |old(nodes)| + 1 && nodes[1..] == old(nodes) && fresh(nodes[0])
    {
      fd := nextFd;
      ViewKeys(open, fd);
      ViewPrepended(Binding(fd, entry), open);
      DecreasingPrepended(open, nextFd, entry);
      hide Decreasing, ViewOf, NodesLinked, Holds;
      nextFd := nextFd + 1;
      var node := new FdNode(fd, entry, head);
      head := node;
      NodesPrepended(node, nodes, open);
      nodes := [node] + nodes;
      open := [Binding(fd, entry)] + open;
    }

    /** find_fd */
    method Find(fd: int) returns (r: Option<nat>)
      requires Valid()
      ensures r == if fd in View() then Some(View()[fd]) else None
    {
      var p := head;
      ghost var k := 0;
      while p != null
        invariant 0 <= k <= |nodes| && p == NodeAt(k)
        invariant forall i | 0 <= i < k :: open[i].fd != fd
        decreases |nodes| - k
      {
        if p.fd == fd {
          ViewAt(open, nextFd, k);
          return Some(p.entry);
        }
        p := p.next;
        k := k + 1;
      }
      ViewKeys(open, fd);
      return None;
    }

    /** remove_fd; a descriptor that is not open is ignored. */
    method Remove(fd: int)
      requires Valid()
      modifies this, nodes
      ensures Valid()
      ensures View() == old(View()) - {fd} && nextFd == old(nextFd)
      ensures forall n | n in nodes :: n in old(nodes)
    {
      var prev: FdNode? := null;
      var curr := head;
      ghost var k := 0;
      while curr != null
        invariant 0 <= k <= |nodes| && curr == NodeAt(k) && prev == NodeAt(k - 1)
        invariant forall i | 0 <= i < k :: open[i].fd != fd
        invariant Valid() && open == old(open) && nodes == old(nodes) && nextFd == old(nextFd)
        decreases |nodes| - k
      {
        if curr.fd == fd {
          Unlink(prev, curr, k);
          return;
        }
        prev := curr;
        curr := curr.next;
        k := k + 1;
      }
      ViewKeys(open, fd);
      assert ViewOf(open) - {fd} == ViewOf(open);
    }

    /** The part of remove_fd that takes node k out of the list. */
    method Unlink(prev: FdNode?, curr: FdNode, ghost k: nat)
      requires Valid() && k < |nodes| && curr == nodes[k] && prev == NodeAt(k - 1)
      modifies this, nodes
      ensures Valid()
      ensures View() == old(View()) - {old(curr.fd)} && nextFd == old(nextFd)
      ensures nodes == Without(old(nodes), k)
    {
      ghost var was, bs := nodes, open;
      hide Decreasing, ViewOf, Without;
      NodesDiffer(was, bs, nextFd, k - 1);
      ViewWithout(bs, nextFd, k);
      DecreasingWithout(bs, nextFd, k);
      if prev == null {
        head := head.next;
      } else {
        prev.next := curr.next;
      }
      nodes, open := Without(was, k), Without(bs, k);
      NodesLinkedWithout(was, k);
      HoldsWithout(was, bs, k);
      HeadWithout(k, was);
    }

    lemma HeadWithout(k: nat, was: seq<FdNode>)
      requires k < |was| && nodes == Without(was, k)
      ensures NodeAt(0) == if k > 0 then was[0] else if |was| > 1 then was[1] else null
    {
    }
  }
}
