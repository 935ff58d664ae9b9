/** The device builder: extension lists without duplicates, and the pNext chain. */
module DeviceBuilder {
  // ---- extensions ----

  // The first occurrence of every element, in order, that `seen` does not hold already.
  function FirstOccurrences(seen: seq<string>, requests: seq<string>): seq<string>
    decreases |requests|
  {
    if requests == [] then []
    else if requests[0] in seen then FirstOccurrences(seen, requests[1..])
    else [requests[0]] + FirstOccurrences(seen + [requests[0]], requests[1..])
  }

  predicate NoDuplicates(s: seq<string>) {
    forall i, j | 0 <= i < j < |s| :: s[i] != s[j]
  }

  // Extension lists of any number of add_extensions calls, one after the other.
  function Flatten(calls: seq<seq<string>>): seq<string> {
    if calls == [] then [] else calls[0] + Flatten(calls[1..])
  }

  function AddAll(extensions: seq<string>, calls: seq<seq<string>>): seq<string>
    decreases |calls|
  {
    if calls == [] then extensions
    else AddAll(extensions + FirstOccurrences(extensions, calls[0]), calls[1..])
  }

  lemma {:induction false} FirstOccurrencesConcat(seen: seq<string>, a: seq<string>, b: seq<string>)
    ensures var fa := FirstOccurrences(seen, a);
            FirstOccurrences(seen, a + b) == fa + FirstOccurrences(seen + fa, b)
    decreases |a|
  {
    if a == [] {
      assert a + b == b && seen + [] == seen;
    } else {
      assert (a + b)[1..] == a[1..] + b;
      if a[0] in seen {
        FirstOccurrencesConcat(seen, a[1..], b);
      } else {
        FirstOccurrencesConcat(seen + [a[0]], a[1..], b);
        var rest := FirstOccurrences(seen + [a[0]], a[1..]);
        assert seen + [a[0]] + rest == seen + ([a[0]] + rest);
      }
    }
  }

  /** Splitting the requests over several calls makes no difference. */
  lemma {:induction false} CallsAreOneCall(extensions: seq<string>, calls: seq<seq<string>>)
    ensures AddAll(extensions, calls) == extensions + FirstOccurrences(extensions, Flatten(calls))
    decreases |calls|
  {
    if calls != [] {
      var here := FirstOccurrences(extensions, calls[0]);
      CallsAreOneCall(extensions + here, calls[1..]);
      FirstOccurrencesConcat(extensions, calls[0], Flatten(calls[1..]));
      assert extensions + here + FirstOccurrences(extensions + here, Flatten(calls[1..]))
          == extensions + (here + FirstOccurrences(extensions + here, Flatten(calls[1..])));
    }
  }

  /** What is added: every new request once, nothing else. */
  lemma {:induction false} AddsEachNewRequestOnce(seen: seq<string>, requests: seq<string>)
    requires NoDuplicates(seen)
    ensures NoDuplicates(seen + FirstOccurrences(seen, requests))
    ensures forall x :: x in FirstOccurrences(seen, requests) <==> x in requests && x !in seen
    decreases |requests|
  {
    if requests != [] {
      var x, rest := requests[0], requests[1..];
      assert requests == [x] + rest;
      if x in seen {
        AddsEachNewRequestOnce(seen, rest);
      } else {
        AddsEachNewRequestOnce(seen + [x], rest);
        assert seen + FirstOccurrences(seen, requests) == seen + [x] + FirstOccurrences(seen + [x], rest);
      }
    }
  }

  // p is where r[i] is first requested, after every addition before it has been.
  ghost predicate FirstRequestedAt(requests: seq<string>, r: seq<string>, i: nat, p: nat) {
    && i < |r| && p < |requests| && requests[p] == r[i] && r[i] !in requests[..p]
    && forall k | 0 <= k < i :: r[k] in requests[..p]
  }

  /** ... in the order of first request. */
  lemma {:induction false} AddsInOrder(seen: seq<string>, requests: seq<string>, i: nat) returns (p: nat)
    requires i < |FirstOccurrences(seen, requests)|
    ensures FirstRequestedAt(requests, FirstOccurrences(seen, requests), i, p)
    ensures FirstOccurrences(seen, requests)[i] !in seen
    decreases |requests|
  {
    var x, rest := requests[0], requests[1..];
    assert requests == [x] + rest;
    if x in seen {
      var q := AddsInOrder(seen, rest, i);
      p := q + 1;
      assert requests[..p] == [x] + rest[..q];
    } else if i == 0 {
      p := 0;
    } else {
      var q := AddsInOrder(seen + [x], rest, i - 1);
      p := q + 1;
      assert requests[..p] == [x] + rest[..q];
      var t := FirstOccurrences(seen + [x], rest);
      assert FirstOccurrences(seen, requests) == [x] + t;
      assert t[i - 1] != x;
    }
  }

  // What create_device asks for before the application's hook runs.
  function InitialExtensions(memoryBudget: bool): seq<string> {
    ["VK_KHR_external_memory_fd", "VK_EXT_external_memory_dma_buf", "VK_KHR_external_fence_fd",
     "VK_EXT_image_drm_format_modifier"]
    + (if memoryBudget then ["VK_EXT_memory_budget"] else [])
  }

  lemma InitialExtensionsDistinct(memoryBudget: bool)
    ensures NoDuplicates(InitialExtensions(memoryBudget))
  {
    var e := InitialExtensions(memoryBudget);
    assert e[0][7] == 'e' && |e[0]| == 25 && |e[1]| == 30 && |e[2]| == 24 && |e[3]| == 32;
    assert memoryBudget ==> |e[4]| == 20;
  }

  lemma InitialExtensionsAre(memoryBudget: bool)
    ensures var e := InitialExtensions(memoryBudget);
            && "VK_KHR_external_memory_fd" in e && "VK_EXT_external_memory_dma_buf" in e
            && "VK_KHR_external_fence_fd" in e && "VK_EXT_image_drm_format_modifier" in e
            && ("VK_EXT_memory_budget" in e <==> memoryBudget)
  {
    var e, budget := InitialExtensions(memoryBudget), "VK_EXT_memory_budget";
    assert |budget| == 20 && |e[0]| == 25 && |e[1]| == 30 && |e[2]| == 24 && |e[3]| == 32;
    assert e[0] in e && e[1] in e && e[2] in e && e[3] in e && (memoryBudget ==> e[4] in e);
  }

  /** However the application splits its requests over calls, the device is created with the
      library's extensions and each requested one, no extension twice. */
  lemma EnabledExtensions(memoryBudget: bool, calls: seq<seq<string>>)
    ensures var e := AddAll(InitialExtensions(memoryBudget), calls);
            && NoDuplicates(e)
            && InitialExtensions(memoryBudget) <= e
            && forall x :: x in e <==> x in InitialExtensions(memoryBudget) || x in Flatten(calls)
    ensures var e := AddAll(InitialExtensions(memoryBudget), calls);
            && "VK_KHR_external_memory_fd" in e && "VK_EXT_external_memory_dma_buf" in e
            && "VK_KHR_external_fence_fd" in e && "VK_EXT_image_drm_format_modifier" in e
            && ("VK_EXT_memory_budget" in e <==> memoryBudget || "VK_EXT_memory_budget" in Flatten(calls))
  {
    hide InitialExtensions;
    InitialExtensionsAre(memoryBudget);
    var start := InitialExtensions(memoryBudget);
    InitialExtensionsDistinct(memoryBudget);
    CallsAreOneCall(start, calls);
    AddsEachNewRequestOnce(start, Flatten(calls));
  }

  // ---- the pNext chain ----

  class VkStructure {
    var pNext: VkStructure?

    constructor ()
      ensures pNext == null
    {
      pNext := null;
    }
  }

  // The nodes from p to the end of its chain, in order: an acyclic, null-terminated list.
  ghost predicate Chain(p: VkStructure?, nodes: seq<VkStructure>)
    reads nodes
  {
    && p == NodeAt(nodes, 0)
    && forall i | 0 <= i < |nodes| :: nodes[i].pNext == NodeAt(nodes, i + 1)
  }

  ghost function NodeAt(nodes: seq<VkStructure>, i: nat): VkStructure? {
    if i < |nodes| then nodes[i] else null
  }

  lemma ChainSuffix(p: VkStructure?, nodes: seq<VkStructure>, i: nat)
    requires Chain(p, nodes) && i <= |nodes|
    ensures Chain(NodeAt(nodes, i), nodes[i..])
  {
    forall k | 0 <= k < |nodes[i..]|
      ensures nodes[i..][k].pNext == NodeAt(nodes[i..], k + 1)
    {
      assert nodes[i + k].pNext == NodeAt(nodes, i + k + 1);
    }
  }

  // A structure has one chain.
  lemma {:induction false} ChainUnique(p: VkStructure?, a: seq<VkStructure>, b: seq<VkStructure>)
    requires Chain(p, a) && Chain(p, b)
    ensures a == b
    decreases |a|
  {
    if a != [] {
      ChainSuffix(p, a, 1);
      ChainSuffix(p, b, 1);
      assert a[0].pNext == NodeAt(a, 1) && b[0].pNext == NodeAt(b, 1);
      ChainUnique(a[0].pNext, a[1..], b[1..]);
      assert a == [a[0]] + a[1..] && b == [b[0]] + b[1..];
    }
  }

  lemma ChainDistinct(p: VkStructure?, nodes: seq<VkStructure>)
    requires Chain(p, nodes)
    ensures forall i, j | 0 <= i < j < |nodes| :: nodes[i] != nodes[j]
  {
    forall i, j | 0 <= i < j < |nodes|
      ensures nodes[i] != nodes[j]
    {
      ChainSuffix(p, nodes, i);
      ChainSuffix(p, nodes, j);
      if nodes[i] == nodes[j] {
        ChainUnique(nodes[i], nodes[i..], nodes[j..]);
      }
    }
  }

  // From inside a set that its links never leave, no chain ends.
  lemma {:induction false} TrappedHasNoChain(p: VkStructure, trap: set<VkStructure>, nodes: seq<VkStructure>)
    requires p in trap
    requires forall n | n in trap :: n.pNext != null && n.pNext in trap
    ensures !Chain(p, nodes)
    decreases |nodes|
  {
    if nodes != [] && Chain(p, nodes) {
      ChainSuffix(p, nodes, 1);
      assert nodes[0].pNext == NodeAt(nodes, 1);
      TrappedHasNoChain(p.pNext, trap, nodes[1..]);
    }
  }

  class Builder {
    var extensions: seq<string>
    var pNextHead: VkStructure?

    constructor (required: seq<string>, head: VkStructure?)
      ensures extensions == required && pNextHead == head
    {
      extensions, pNextHead := required, head;
    }

    /** Appends each extension that is not in the list yet. */
    method AddExtensions(requests: seq<string>)
      modifies this`extensions
      ensures extensions == old(extensions) + FirstOccurrences(old(extensions), requests)
    {
      var i := 0;
      while i < |requests|
        invariant i <= |requests|
        invariant extensions + FirstOccurrences(extensions, requests[i..])
                  == old(extensions) + FirstOccurrences(old(extensions), requests)
      {
        assert requests[i..][1..] == requests[i + 1..];
        var present, k := false, 0;
        while k < |extensions| && !present
          invariant k <= |extensions|
          invariant present <==> requests[i] in extensions[..k]
        {
          if extensions[k] == requests[i] {
            present := true;
          }
          k := k + 1;
        }
        if !present {
          extensions := extensions + [requests[i]];
        }
        i := i + 1;
      }
    }

    /** Appends `structure` and whatever is chained behind it. When the two chains share no node
        the result is the old chain followed by the structure's; when they do, the result has no
        end at all. */
    method ChainNext(structure: VkStructure?, ghost chain: seq<VkStructure>, ghost own: seq<VkStructure>)
      requires Chain(pNextHead, chain) && Chain(structure, own)
      modifies this`pNextHead, chain
      ensures (forall n | n in chain :: n !in own) ==> Chain(pNextHead, chain + own)
      ensures (exists n | n in chain :: n in own) ==> forall nodes :: !Chain(pNextHead, nodes)
      ensures forall i | 0 <= i < |chain| - 1 :: chain[i].pNext == chain[i + 1]
      ensures pNextHead == if old(pNextHead) == null then structure else old(pNextHead)
      ensures chain != [] ==> chain[|chain| - 1].pNext == structure
    {
      if pNextHead == null {
        assert chain == [];
        pNextHead := structure;
        assert chain + own == own;
      } else {
        ChainDistinct(pNextHead, chain);
        ghost var shared := exists n | n in chain :: n in own;
        if shared {
          SharedEnd(pNextHead, chain, structure, own);
        }
        var last := pNextHead;
        ghost var i := 0;
        while last.pNext != null
          invariant 0 <= i < |chain| && last == chain[i]
          decreases |chain| - i
        {
          assert chain[i].pNext == NodeAt(chain, i + 1);
          last := last.pNext;
          i := i + 1;
        }
        assert chain[i].pNext == NodeAt(chain, i + 1);
        LinkTail(pNextHead, structure, chain, own, last);
        Redirect(last, structure, chain, own);
        if shared {
          assert forall i | 0 <= i < |own| - 1 :: own[i] != last;
          Endless(pNextHead, structure, chain, own);
        } else {
          assert last in chain;
          Appended(pNextHead, structure, chain, own);
        }
      }
    }

    // The one write of chain_next.
    method Redirect(last: VkStructure, q: VkStructure?, ghost chain: seq<VkStructure>, ghost own: seq<VkStructure>)
      requires forall i | 0 <= i < |chain| - 1 :: chain[i].pNext == chain[i + 1] && chain[i] != last
      requires forall i | 0 <= i < |own| :: own[i].pNext == NodeAt(own, i + 1)
      requires forall i, j | 0 <= i < j < |own| :: own[i] != own[j]
      modifies last
      ensures last.pNext == q
      ensures forall i | 0 <= i < |chain| - 1 :: chain[i].pNext == chain[i + 1]
      ensures forall i | 0 <= i < |own| && own[i] != last :: own[i].pNext == NodeAt(own, i + 1)
    {
      last.pNext := q;
    }
  }

  /** Chaining one structure twice is enough to make the chain endless. */
  method ChainTwice(n: VkStructure) returns (b: Builder)
    requires n.pNext == null
    modifies n
    ensures fresh(b) && b.pNextHead == n && forall nodes :: !Chain(b.pNextHead, nodes)
  {
    b := new Builder([], null);
    assert Chain(n, [n]);
    b.ChainNext(n, [], [n]);
    assert [] + [n] == [n];
    b.ChainNext(n, [n], [n]);
  }

  // The links of both chains, before the last node of the first is redirected.
  lemma LinkTail(p: VkStructure?, q: VkStructure?, chain: seq<VkStructure>, own: seq<VkStructure>, last: VkStructure)
    requires Chain(p, chain) && Chain(q, own) && chain != [] && last == chain[|chain| - 1]
    ensures forall i | 0 <= i < |chain| - 1 :: chain[i].pNext == chain[i + 1]
    ensures forall i | 0 <= i < |own| :: own[i].pNext == NodeAt(own, i + 1)
    ensures q == NodeAt(own, 0)
    ensures forall i, j | 0 <= i < j < |own| :: own[i] != own[j]
  {
    ChainDistinct(q, own);
    assert forall i | 0 <= i < |chain| :: chain[i].pNext == NodeAt(chain, i + 1);
  }

  lemma Appended(p: VkStructure?, q: VkStructure?, chain: seq<VkStructure>, own: seq<VkStructure>)
    requires chain != [] && p == chain[0] && q == NodeAt(own, 0)
    requires forall i | 0 <= i < |chain| - 1 :: chain[i].pNext == chain[i + 1]
    requires chain[|chain| - 1].pNext == q
    requires forall i | 0 <= i < |own| :: own[i].pNext == NodeAt(own, i + 1)
    ensures Chain(p, chain + own)
  {
    var all := chain + own;
    forall i | 0 <= i < |all|
      ensures all[i].pNext == NodeAt(all, i + 1)
    {
      if i >= |chain| {
        assert own[i - |chain|].pNext == NodeAt(own, i - |chain| + 1);
      }
    }
  }

  lemma Endless(p: VkStructure?, q: VkStructure?, chain: seq<VkStructure>, own: seq<VkStructure>)
    requires chain != [] && own != [] && p == chain[0] && q == own[0]
    requires forall i | 0 <= i < |chain| - 1 :: chain[i].pNext == chain[i + 1]
    requires forall i | 0 <= i < |own| - 1 :: own[i].pNext == own[i + 1]
    requires chain[|chain| - 1] == own[|own| - 1] && chain[|chain| - 1].pNext == q
    ensures forall nodes :: !Chain(p, nodes)
  {
    var trap := (set n | n in chain) + (set n | n in own);
    forall n | n in trap
      ensures n.pNext != null && n.pNext in trap
    {
      if n in chain {
        var i :| 0 <= i < |chain| && chain[i] == n;
        assert n.pNext == if i + 1 < |chain| then chain[i + 1] else own[0];
      } else {
        var i :| 0 <= i < |own| && own[i] == n;
        assert i + 1 < |own| && n.pNext == own[i + 1];
      }
    }
    forall nodes
      ensures !Chain(p, nodes)
    {
      TrappedHasNoChain(p, trap, nodes);
    }
  }

  // Two chains with a common node end in the same node.
  lemma SharedEnd(p: VkStructure?, a: seq<VkStructure>, q: VkStructure?, b: seq<VkStructure>)
    requires Chain(p, a) && Chain(q, b) && exists n | n in a :: n in b
    ensures a != [] && b != [] && a[|a| - 1] == b[|b| - 1]
  {
    var n :| n in a && n in b;
    var i :| 0 <= i < |a| && a[i] == n;
    var j :| 0 <= j < |b| && b[j] == n;
    ChainSuffix(p, a, i);
    ChainSuffix(q, b, j);
    ChainUnique(n, a[i..], b[j..]);
    assert a[i..][|a| - 1 - i] == a[|a| - 1] && b[j..][|b| - 1 - j] == b[|b| - 1];
  }
}
