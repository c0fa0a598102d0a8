/** Whole runs of vm_map and unmap_lower_half on the memory the code updates in place. */
module MemoryRuns {
  import opened Common
  import opened FreeList
  import opened Address
  import opened PageTable
  import opened AddressSpace
  import opened KernelMemory

  method Do(pm: PhysicalMemory, root: nat, op: Op)
    requires pm.Valid() && Inv(pm.State(), root)
    requires op.MapPage? ==> !Walk(pm.frames, root, PageOf(op.a)).Huge?
    modifies pm
    ensures pm.Valid() && pm.State() == Apply(old(pm.State()), root, op)
  {
    hide Inv, HeadersIn;
    match op
    case MapPage(a, q) =>
      var ok := pm.VmMap(root, a, q.user, q.writable, q.executable);
    case UnmapLower =>
      pm.UnmapLowerHalf(root);
  }

  /**
   Every run can be carried out to its end: each call finds the memory it relies on, the result is the one
   the functions compute, and no table or free page has been lost or counted twice.
   */
  method Execute(pm: PhysicalMemory, root: nat, ops: seq<Op>)
    requires pm.Valid() && Inv(pm.State(), root) && NoHuge(pm.State(), root, ops)
    modifies pm
    ensures pm.Valid() && Inv(pm.State(), root)
    ensures pm.State() == Run(old(pm.State()), root, ops)
    ensures Owned(pm.State(), root) == Owned(old(pm.State()), root)
  {
    hide Inv, HeadersIn, Owned, NoHuge, Run, Apply;
    ghost var m := pm.State();
    RunBegin(m, root, ops);
    var i := 0;
    while i < |ops|
      invariant 0 <= i <= |ops| && pm.Valid() && pm.State() == Run(m, root, ops[..i])
      invariant Inv(pm.State(), root) && Owned(pm.State(), root) == Owned(m, root)
    {
      RunNext(m, root, ops, i);
      Do(pm, root, ops[i]);
      i := i + 1;
    }
    assert ops[..i] == ops;
  }

  lemma RunBegin(m: Mem, root: nat, ops: seq<Op>)
    ensures Run(m, root, ops[..0]) == m
  {
  }

  lemma NoHugePrefix(m: Mem, root: nat, ops: seq<Op>, k: nat)
    requires NoHuge(m, root, ops) && k <= |ops|
    ensures NoHuge(m, root, ops[..k])
  {
    assert forall i | 0 <= i < k :: ops[..k][..i] == ops[..i];
  }

  lemma RunNext(m: Mem, root: nat, ops: seq<Op>, i: nat)
    requires Inv(m, root) && NoHuge(m, root, ops) && i < |ops|
    ensures var m1, m2 := Run(m, root, ops[..i]), Run(m, root, ops[..i + 1]);
      && (ops[i].MapPage? ==> !Walk(m1.frames, root, PageOf(ops[i].a)).Huge?) && m2 == Apply(m1, root, ops[i])
      && Inv(m2, root) && Owned(m2, root) == Owned(m, root)
  {
    hide Inv, Owned, Walk;
    assert ops[..i + 1][..i] == ops[..i];
    forall k | k == i || k == i + 1
      ensures NoHuge(m, root, ops[..k])
    {
      NoHugePrefix(m, root, ops, k);
    }
    RunKeeps(m, root, ops[..i]);
    RunKeeps(m, root, ops[..i + 1]);
  }
}
