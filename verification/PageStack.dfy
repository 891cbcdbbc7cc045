/**
 * LRU/src/stack.c and LRU/src/LRU.c: the intrusive circular doubly linked
 * list with a sentinel, the page table, and use_page over both.
 *
 * A Stacknode's `container` is the number of the page the node is embedded
 * in; it stands for the address arithmetic of container_of.  The sentinel is
 * embedded in no page.
 */
module PageStack {
  import opened LruPolicy

  const NO_PAGE := -1

  class Stacknode {
    var prev: Stacknode?
    var next: Stacknode?
    const container: int

    constructor (container: int)
      ensures prev == null && next == null && this.container == container
    {
      prev, next := null, null;
      this.container := container;
    }
  }

  /** Each node's next is its successor and its prev its predecessor. */
  ghost predicate Linked(ring: seq<Stacknode>)
    reads ring
  {
    && (forall i :: 0 <= i < |ring| - 1 ==> ring[i].next == ring[i + 1])
    && (forall i :: 0 < i < |ring| ==> ring[i].prev == ring[i - 1])
  }

  class Stack {
    const top: Stacknode
    var size: int
    const contain: int
    ghost const drift: int           // the value newstack leaves in size
    ghost var nodes: seq<Stacknode>  // the list, top of the stack first

    /** The cycle, opened at the sentinel. */
    ghost function Ring(): seq<Stacknode>
      reads this
    {
      [top] + nodes + [top]
    }

    ghost predicate Valid()
      reads this, top, nodes
    {
      && top.container == NO_PAGE
      && NoDup(nodes) && top !in nodes
      && Linked(Ring())
      && size == |nodes| + drift
    }

    /** The number of pages the list can really hold. */
    ghost function Capacity(): int {
      contain - drift
    }

    /** newstack: `garbage` is the content of the freshly allocated size word,
        which newstack never writes. */
    constructor (contain: int, garbage: int)
      ensures Valid() && nodes == [] && fresh(top)
      ensures this.contain == contain && drift == garbage
    {
      var node := new Stacknode(NO_PAGE);
      node.prev := node;
      node.next := node;
      top := node;
      this.contain := contain;
      size := garbage;
      drift := garbage;
      nodes := [];
    }

    /** The node reached from the sentinel by n steps along next. */
    ghost function Forward(n: nat): Stacknode?
      reads this, top, nodes
    {
      if n == 0 then top
      else
        var x := Forward(n - 1);
        if x == top || x in nodes then x.next else null
    }

    /** The node reached from the sentinel by n steps along prev. */
    ghost function Backward(n: nat): Stacknode?
      reads this, top, nodes
    {
      if n == 0 then top
      else
        var x := Backward(n - 1);
        if x == top || x in nodes then x.prev else null
    }

    /** One cycle through the sentinel: next visits the list top first and
        returns after |nodes| + 1 steps, prev visits it in exact reverse. */
    lemma {:induction false} BothChains(n: nat)
      requires Valid() && n <= |nodes| + 1
      ensures Forward(n) == Ring()[n]
      ensures Backward(n) == Ring()[|nodes| + 1 - n]
      ensures 0 < n <= |nodes| ==> Forward(n) == nodes[n - 1] && Backward(n) == nodes[|nodes| - n]
      ensures n == |nodes| + 1 ==> Forward(n) == top && Backward(n) == top
    {
      if n > 0 {
        BothChains(n - 1);
        var ring := Ring();
        assert ring[n - 1].next == ring[n];
        assert ring[|ring| - n].prev == ring[|ring| - 1 - n];
      }
    }

    method Push(node: Stacknode)
      requires Valid()
      modifies this, node, top, nodes
      ensures Valid()
      ensures nodes == if old(size) == contain || old(node.next) != null || old(node.prev) != null
                       then old(nodes) else [node] + old(nodes)
      ensures nodes == old(nodes) ==> unchanged(node)
    {
      if size == contain {
        return;
      }
      if node.next != null || node.prev != null {
        return;
      }
      OnListIsLinked();
      ghost var ring := Ring();
      assert ring[0].next == ring[1];
      node.next := top.next;
      top.next := node;
      node.prev := top;
      node.next.prev := node;
      size := size + 1;
      nodes := [node] + nodes;
      PushLinked(ring, node);
    }

    /** The nodes of the cycle are exactly those with links. */
    lemma OnListIsLinked()
      requires Valid()
      ensures top.next != null && top.prev != null
      ensures forall x :: x in nodes ==> x.next != null && x.prev != null
    {
      var ring := Ring();
      assert ring[0].next == ring[1];
      assert ring[|ring| - 1].prev == ring[|ring| - 2];
      forall i | 0 <= i < |nodes| ensures nodes[i].next != null && nodes[i].prev != null {
        assert ring[i + 1] == nodes[i];
        assert ring[i + 1].next == ring[i + 2] && ring[i + 1].prev == ring[i];
      }
    }

    /** Around position k of the cycle, no node occurs twice. */
    lemma NeighboursOnce(ring: seq<Stacknode>, k: nat)
      requires NoDup(nodes) && top !in nodes && 0 < k <= |nodes| && ring == Ring()
      ensures forall j :: 0 <= j < |ring| - 1 && j != k - 1 ==> ring[j] != ring[k - 1]
      ensures forall j :: 0 <= j < |ring| && j != k ==> ring[j] != ring[k]
      ensures forall j :: 0 < j < |ring| && j != k + 1 ==> ring[j] != ring[k + 1]
    {
    }

    lemma PushLinked(ring: seq<Stacknode>, node: Stacknode)
      requires nodes != [] && nodes[0] == node && ring == [top] + nodes[1..] + [top]
      requires NoDup(nodes) && top !in nodes
      requires top.next == node && node.prev == top && node.next == ring[1] && ring[1].prev == node
      requires forall i :: 1 <= i < |ring| - 1 ==> ring[i].next == ring[i + 1]
      requires forall i :: 1 < i < |ring| ==> ring[i].prev == ring[i - 1]
      ensures Linked(Ring())
    {
      var r := Ring();
      assert forall i :: 2 <= i < |r| ==> r[i] == ring[i - 1];
    }

    method DelNode(node: Stacknode)
      requires Valid() && node in nodes
      modifies this, top, nodes
      ensures Valid()
      ensures node.next == null && node.prev == null
      ensures nodes == Drop(old(nodes), node) && node !in nodes
    {
      hide Drop, Find, NoDup;
      ghost var k := Find(nodes, node) + 1;
      ghost var ring := Ring();
      assert ring[k] == node && ring[k].prev == ring[k - 1] && ring[k].next == ring[k + 1];
      NeighboursOnce(ring, k);
      CutRing(node);
      assert forall j :: 0 <= j < |ring| ==> ring[j] == top || ring[j] in nodes;
      node.prev.next := node.next;
      node.next.prev := node.prev;
      node.next := null;
      node.prev := null;
      size := size - 1;
      nodes := Drop(nodes, node);
      forall j | 0 <= j < |ring| - 1 && j != k - 1 && j != k ensures ring[j].next == ring[j + 1] {
        assert old(ring[j].next) == ring[j + 1];
      }
      forall j | 0 < j < |ring| && j != k + 1 && j != k ensures ring[j].prev == ring[j - 1] {
        assert old(ring[j].prev) == ring[j - 1];
      }
      DelLinked(ring, k);
    }

    lemma CutRing(node: Stacknode)
      requires NoDup(nodes) && node in nodes
      ensures NoDup(Drop(nodes, node)) && |Drop(nodes, node)| == |nodes| - 1
      ensures node !in Drop(nodes, node)
      ensures forall i :: 0 <= i < |Drop(nodes, node)| ==> Drop(nodes, node)[i] in nodes
      ensures var k := Find(nodes, node) + 1;
              [top] + Drop(nodes, node) + [top] == Ring()[..k] + Ring()[k + 1..]
    {
      DropNoDup(nodes, node);
      DropIsCut(nodes, node);
      hide NoDup;
      RingWithout(Find(nodes, node));
    }

    lemma RingWithout(i: nat)
      requires i < |nodes|
      ensures [top] + (nodes[..i] + nodes[i + 1..]) + [top] == Ring()[..i + 1] + Ring()[i + 2..]
    {
    }

    lemma DelLinked(ring: seq<Stacknode>, k: nat)
      requires 0 < k < |ring| - 1 && Ring() == ring[..k] + ring[k + 1..]
      requires ring[k - 1].next == ring[k + 1] && ring[k + 1].prev == ring[k - 1]
      requires forall j :: 0 <= j < |ring| - 1 && j != k - 1 && j != k ==> ring[j].next == ring[j + 1]
      requires forall j :: 0 < j < |ring| && j != k + 1 && j != k ==> ring[j].prev == ring[j - 1]
      ensures Linked(Ring())
    {
      var r := Ring();
      assert forall j :: 0 <= j < |r| ==> r[j] == ring[if j < k then j else j + 1];
    }

    /** Dies when the node is in no list. */
    method SetTop(node: Stacknode) returns (died: bool)
      requires Valid()
      requires node.next != null && node.prev != null ==> node in nodes
      requires nodes != [] ==> size <= contain
      modifies this, top, node, nodes
      ensures Valid()
      ensures died <==> old(node.next == null || node.prev == null)
      ensures died ==> nodes == old(nodes)
      ensures !died ==> nodes == [node] + Drop(old(nodes), node)
    {
      if node.next == null || node.prev == null {
        return true;
      }
      DropNoDup(nodes, node);
      DelNode(node);
      assert forall i :: 0 <= i < |nodes| ==> nodes[i] in old(nodes);
      Push(node);
      return false;
    }

    method Bottom() returns (node: Stacknode?)
      requires Valid()
      ensures node == if nodes == [] then null else nodes[|nodes| - 1]
    {
      ghost var ring := Ring();
      assert ring[|ring| - 1].prev == ring[|ring| - 2];
      var btm := top.prev;
      if btm == top {
        node := null;
      } else {
        node := btm;
      }
    }
  }

  // ---------------------------------------------------------------------
  // The page table and use_page
  // ---------------------------------------------------------------------

  class Ipagenode {
    const node: Stacknode
    const no: int
    var isInMem: bool

    constructor (i: int)
      ensures node.container == i && no == i && !isInMem
      ensures fresh(node) && node.prev == null && node.next == null
    {
      node := new Stacknode(i);
      no := i;
      isInMem := false;
    }
  }

  datatype Ipages = Ipages(pages: seq<Ipagenode>, size: int)

  ghost function PageNodes(pages: seq<Ipagenode>): set<Stacknode> {
    set i | 0 <= i < |pages| :: pages[i].node
  }

  /** The table of init_ipages: page i is numbered i and embeds node i. */
  ghost predicate Numbered(ipages: Ipages) {
    && |ipages.pages| == ipages.size
    && forall i :: 0 <= i < |ipages.pages| ==> ipages.pages[i].no == i && ipages.pages[i].node.container == i
  }

  /** The numbers of the pages on a list of nodes. */
  ghost function Labels(nodes: seq<Stacknode>): seq<int> {
    seq(|nodes|, i requires 0 <= i < |nodes| => nodes[i].container)
  }

  /** A page is flagged exactly when its node is on the list; otherwise the
      node has no links. */
  ghost predicate Flagged(nodes: seq<Stacknode>, page: Ipagenode)
    reads page, page.node
  {
    && (page.isInMem <==> page.node in nodes)
    && (!page.isInMem ==> page.node.prev == null && page.node.next == null)
  }

  /** A node on the list is the one embedded in the page it names. */
  ghost predicate Embedded(ipages: Ipages, node: Stacknode) {
    0 <= node.container < |ipages.pages| && ipages.pages[node.container].node == node
  }

  /** List, table and flags agree. */
  ghost predicate Coherent(stack: Stack, ipages: Ipages)
    reads stack, stack.top, stack.nodes, ipages.pages, PageNodes(ipages.pages)
  {
    && stack.Valid()
    && Numbered(ipages)
    && (forall i :: 0 <= i < |stack.nodes| ==> Embedded(ipages, stack.nodes[i]))
    && (forall i :: 0 <= i < |ipages.pages| ==> Flagged(stack.nodes, ipages.pages[i]))
    && (stack.nodes != [] ==> stack.size <= stack.contain)
  }

  method InitIpages(pagenums: int) returns (ipages: Ipages)
    requires pagenums >= 0
    ensures Numbered(ipages) && ipages.size == pagenums
    ensures forall i :: 0 <= i < pagenums ==>
              fresh(ipages.pages[i]) && fresh(ipages.pages[i].node) && !ipages.pages[i].isInMem &&
              ipages.pages[i].node.prev == null && ipages.pages[i].node.next == null
  {
    var pages: seq<Ipagenode> := [];
    for i := 0 to pagenums
      invariant |pages| == i
      invariant forall j :: 0 <= j < i ==>
                  fresh(pages[j]) && fresh(pages[j].node) && pages[j].no == j && pages[j].node.container == j &&
                  !pages[j].isInMem && pages[j].node.prev == null && pages[j].node.next == null
    {
      var page := new Ipagenode(i);
      pages := pages + [page];
    }
    ipages := Ipages(pages, pagenums);
  }

  /** The push-and-mark pair of use_page and swap_page. */
  method Load(stack: Stack, ipages: Ipages, need: int)
    requires Coherent(stack, ipages) && 0 <= need < ipages.size && !ipages.pages[need].isInMem
    requires stack.size < stack.contain
    modifies stack, stack.top, stack.nodes, ipages.pages, PageNodes(ipages.pages)
    ensures Coherent(stack, ipages)
    ensures stack.nodes == [ipages.pages[need].node] + old(stack.nodes)
  {
    hide Linked, NoDup, Embedded;
    var page := ipages.pages[need];
    assert page.node in PageNodes(ipages.pages);
    ghost var was := stack.nodes;
    stack.OnListIsLinked();
    assert page.node !in was && Embedded(ipages, page.node) by { PageEmbedded(ipages, need); }
    stack.Push(page.node);
    page.isInMem := true;
    OneMore(stack, ipages, need, was);
  }

  lemma PageEmbedded(ipages: Ipages, need: int)
    requires Numbered(ipages) && 0 <= need < ipages.size
    ensures Embedded(ipages, ipages.pages[need].node)
  {
  }

  /** One more node in front, of a page just flagged. */
  lemma OneMore(stack: Stack, ipages: Ipages, need: int, was: seq<Stacknode>)
    requires stack.Valid() && Numbered(ipages) && (stack.nodes != [] ==> stack.size <= stack.contain)
    requires 0 <= need < ipages.size && ipages.pages[need].isInMem
    requires stack.nodes == [ipages.pages[need].node] + was
    requires forall i :: 0 <= i < |was| ==> Embedded(ipages, was[i])
    requires forall i :: 0 <= i < |ipages.pages| && i != need ==> Flagged(was, ipages.pages[i])
    ensures Coherent(stack, ipages)
  {
    hide Linked, NoDup;
    PageEmbedded(ipages, need);
    forall i | 0 <= i < |stack.nodes| ensures Embedded(ipages, stack.nodes[i]) {
      if i > 0 {
        assert stack.nodes[i] == was[i - 1];
      }
    }
    forall i | 0 <= i < |ipages.pages| ensures Flagged(stack.nodes, ipages.pages[i]) {
      assert ipages.pages[i].node.container == i;
      assert ipages.pages[i].node in stack.nodes <==> ipages.pages[i].node in was || i == need;
    }
  }

  /** The unlink-and-unmark pair of swap_page, on the bottom page. */
  method Evict(stack: Stack, ipages: Ipages, page: Ipagenode)
    requires Coherent(stack, ipages) && stack.nodes != []
    requires page in ipages.pages && page.node == stack.nodes[|stack.nodes| - 1]
    modifies stack, stack.top, stack.nodes, ipages.pages, PageNodes(ipages.pages)
    ensures Coherent(stack, ipages)
    ensures stack.nodes == old(stack.nodes)[..|old(stack.nodes)| - 1]
    ensures page.node !in stack.nodes && !page.isInMem
    ensures forall p :: p in ipages.pages && p != page ==> p.isInMem == old(p.isInMem)
  {
    ghost var was, n := stack.nodes, |stack.nodes| - 1;
    CutIsDrop(was, n);
    assert was[..n] + was[n + 1..] == was[..n];
    hide Linked, NoDup, Drop, Embedded;
    stack.DelNode(page.node);
    page.isInMem := false;
    OneLess(stack, ipages, page, was);
  }

  /** The last node taken off, and its page unflagged. */
  lemma OneLess(stack: Stack, ipages: Ipages, page: Ipagenode, was: seq<Stacknode>)
    requires stack.Valid() && Numbered(ipages) && (stack.nodes != [] ==> stack.size <= stack.contain)
    requires page in ipages.pages && !page.isInMem && page.node.prev == null && page.node.next == null
    requires NoDup(was) && was == stack.nodes + [page.node]
    requires forall i :: 0 <= i < |was| ==> Embedded(ipages, was[i])
    requires forall i :: 0 <= i < |ipages.pages| && ipages.pages[i] != page ==> Flagged(was, ipages.pages[i])
    ensures Coherent(stack, ipages) && page.node !in stack.nodes
  {
    hide Linked;
    assert forall i :: 0 <= i < |stack.nodes| ==> stack.nodes[i] == was[i] != was[|was| - 1];
    forall i | 0 <= i < |ipages.pages| ensures Flagged(stack.nodes, ipages.pages[i]) {
      if ipages.pages[i] != page {
        var j :| 0 <= j < |ipages.pages| && ipages.pages[j] == page;
        assert ipages.pages[i].node.container == i && page.node.container == j;
      }
    }
  }

  /** Evicts the bottom page and loads page `need`; dies on an empty list. */
  method SwapPage(stack: Stack, ipages: Ipages, need: int) returns (died: bool)
    requires Coherent(stack, ipages) && 0 <= need < ipages.size && !ipages.pages[need].isInMem
    requires stack.size >= stack.contain
    modifies stack, stack.top, stack.nodes, ipages.pages, PageNodes(ipages.pages)
    ensures Coherent(stack, ipages)
    ensures died <==> old(stack.nodes) == []
    ensures died ==> stack.nodes == old(stack.nodes)
    ensures !died ==> stack.nodes == [ipages.pages[need].node] + old(stack.nodes)[..|old(stack.nodes)| - 1]
  {
    var pagenode := stack.Bottom();
    if pagenode == null {
      return true;
    }
    var page := ipages.pages[pagenode.container];
    Evict(stack, ipages, page);
    Load(stack, ipages, need);
    return false;
  }

  /** The settop branch of use_page, which never dies. */
  method Promote(stack: Stack, ipages: Ipages, need: int)
    requires Coherent(stack, ipages) && 0 <= need < ipages.size && ipages.pages[need].isInMem
    modifies stack, stack.top, stack.nodes
    ensures Coherent(stack, ipages)
    ensures stack.nodes == [ipages.pages[need].node] + Drop(old(stack.nodes), ipages.pages[need].node)
    ensures Labels(stack.nodes) == [need] + Drop(old(Labels(stack.nodes)), need)
  {
    var needpage := ipages.pages[need];
    PromotedLabels(stack.nodes, needpage.node);
    SameMembers(stack.nodes, needpage.node);
    stack.OnListIsLinked();
    ghost var was := stack.nodes;
    hide Linked, Drop, NoDup, Numbered, Embedded, Labels;
    var died := stack.SetTop(needpage.node);
    assert !died;
    Reordered(stack, ipages, was);
  }

  lemma {:induction false} PromotedLabels(nodes: seq<Stacknode>, node: Stacknode)
    requires node in nodes
    requires forall i :: 0 <= i < |nodes| && nodes[i].container == node.container ==> nodes[i] == node
    ensures Labels([node] + Drop(nodes, node)) == [node.container] + Drop(Labels(nodes), node.container)
  {
    LabelsDrop(nodes, node);
    hide Drop;
  }

  /** Another order of the same nodes agrees with table and flags as well. */
  lemma Reordered(stack: Stack, ipages: Ipages, was: seq<Stacknode>)
    requires stack.Valid() && Numbered(ipages) && (stack.nodes != [] ==> stack.size <= stack.contain)
    requires forall i :: 0 <= i < |was| ==> Embedded(ipages, was[i])
    requires forall i :: 0 <= i < |ipages.pages| ==> Flagged(was, ipages.pages[i])
    requires forall i :: 0 <= i < |stack.nodes| ==> stack.nodes[i] in was
    requires forall i :: 0 <= i < |was| ==> was[i] in stack.nodes
    ensures Coherent(stack, ipages)
  {
    hide Linked, NoDup;
    forall i | 0 <= i < |stack.nodes| ensures Embedded(ipages, stack.nodes[i]) {
      var j :| 0 <= j < |was| && was[j] == stack.nodes[i];
    }
  }

  /** Moving a node to the front keeps the nodes of the list. */
  lemma SameMembers(nodes: seq<Stacknode>, node: Stacknode)
    requires NoDup(nodes) && node in nodes
    ensures var moved := [node] + Drop(nodes, node);
            && (forall i :: 0 <= i < |moved| ==> moved[i] in nodes)
            && (forall i :: 0 <= i < |nodes| ==> nodes[i] in moved)
            && |moved| == |nodes|
  {
    DropNoDup(nodes, node);
    hide Drop;
    var moved := [node] + Drop(nodes, node);
    assert forall i :: 0 < i < |moved| ==> moved[i] == Drop(nodes, node)[i - 1];
    forall i | 0 <= i < |nodes| ensures nodes[i] in moved {
      if nodes[i] != node {
        var j :| 0 <= j < |Drop(nodes, node)| && Drop(nodes, node)[j] == nodes[i];
        assert moved[j + 1] == nodes[i];
      }
    }
  }

  datatype Outcome = Done | Died

  /**
   * use_page.  It dies on a page outside the table and on a memory without
   * capacity; otherwise the resident list makes exactly the policy's move.
   */
  method UsePage(stack: Stack, ipages: Ipages, need: int) returns (r: Outcome)
    requires Coherent(stack, ipages) && 0 <= need
    modifies stack, stack.top, stack.nodes, ipages.pages, PageNodes(ipages.pages)
    ensures Coherent(stack, ipages)
    ensures r == Died <==> need >= ipages.size || stack.Capacity() <= 0
    ensures r == Died ==> stack.nodes == old(stack.nodes)
    ensures r == Done ==> Labels(stack.nodes) == Touch(stack.Capacity(), old(Labels(stack.nodes)), need)
  {
    hide Linked;
    if need >= ipages.size {
      return Died;
    }
    var needpage := ipages.pages[need];
    ghost var labels := Labels(stack.nodes);
    assert needpage.node in PageNodes(ipages.pages);
    ResidentIff(stack, ipages, need);
    if needpage.isInMem {
      Promote(stack, ipages, need);
      assert Labels(stack.nodes) == [need] + Drop(labels, need);
    } else if stack.size < stack.contain {
      Load(stack, ipages, need);
      assert Labels(stack.nodes) == [need] + labels;
    } else {
      var died := SwapPage(stack, ipages, need);
      if died {
        return Died;
      }
      assert Labels(stack.nodes) == [need] + labels[..|labels| - 1];
    }
    return Done;
  }

  /** is_inmem says whether the page is on the list. */
  lemma ResidentIff(stack: Stack, ipages: Ipages, p: int)
    requires Coherent(stack, ipages) && 0 <= p < ipages.size
    ensures ipages.pages[p].isInMem <==> p in Labels(stack.nodes)
  {
    if p in Labels(stack.nodes) {
      var i :| 0 <= i < |stack.nodes| && Labels(stack.nodes)[i] == p;
      assert ipages.pages[p].node == stack.nodes[i];
    }
    if ipages.pages[p].node in stack.nodes {
      var i :| 0 <= i < |stack.nodes| && stack.nodes[i] == ipages.pages[p].node;
      assert Labels(stack.nodes)[i] == p;
    }
  }

  /** Different nodes on the list carry different page numbers. */
  lemma {:induction false} LabelsDrop(nodes: seq<Stacknode>, node: Stacknode)
    requires node in nodes
    requires forall i :: 0 <= i < |nodes| && nodes[i].container == node.container ==> nodes[i] == node
    ensures Labels(Drop(nodes, node)) == Drop(Labels(nodes), node.container)
  {
    if nodes[0] == node {
      assert Labels(nodes)[1..] == Labels(nodes[1..]);
    } else {
      LabelsDrop(nodes[1..], node);
      assert Labels(nodes)[1..] == Labels(nodes[1..]);
      assert Labels([nodes[0]] + Drop(nodes[1..], node)) == [nodes[0].container] + Labels(Drop(nodes[1..], node));
    }
  }

  /** The traversal of print_LRU: the flags of the table, then the list from
      the sentinel along `next` until the sentinel returns. */
  method PrintLRU(stack: Stack, ipages: Ipages) returns (absent: seq<int>, shown: seq<int>)
    requires Coherent(stack, ipages)
    ensures shown == Labels(stack.nodes)
    ensures forall i, j :: 0 <= i < j < |absent| ==> absent[i] < absent[j]
    ensures forall p :: p in absent <==> 0 <= p < ipages.size && p !in Labels(stack.nodes)
  {
    absent := [];
    var i := 0;
    while i < ipages.size
      invariant 0 <= i <= ipages.size
      invariant forall j :: 0 <= j < |absent| ==> 0 <= absent[j] < i
      invariant forall j, k :: 0 <= j < k < |absent| ==> absent[j] < absent[k]
      invariant forall p :: p in absent <==> 0 <= p < i && p !in Labels(stack.nodes)
    {
      ResidentIff(stack, ipages, i);
      if !ipages.pages[i].isInMem {
        absent := absent + [ipages.pages[i].no];
      }
      i := i + 1;
    }
    shown := [];
    ghost var ring := stack.Ring();
    var top := stack.top;
    assert ring[0].next == ring[1];
    var snode := top.next;
    ghost var n := 0;
    while snode != top
      invariant 0 <= n <= |stack.nodes| && snode == ring[n + 1]
      invariant n < |stack.nodes| ==> snode == stack.nodes[n]
      invariant shown == Labels(stack.nodes[..n])
      decreases |stack.nodes| - n
    {
      assert ring[n + 1].next == ring[n + 2];
      var page := ipages.pages[snode.container];
      shown := shown + [page.no];
      assert stack.nodes[..n + 1] == stack.nodes[..n] + [stack.nodes[n]];
      snode := snode.next;
      n := n + 1;
    }
    assert stack.nodes[..n] == stack.nodes;
  }

  lemma OnlyPages(stack: Stack, ipages: Ipages)
    requires Coherent(stack, ipages)
    ensures forall i :: 0 <= i < |stack.nodes| ==> stack.nodes[i] in PageNodes(ipages.pages)
  {
  }

  lemma EmptyCoherent(stack: Stack, ipages: Ipages)
    requires stack.Valid() && stack.nodes == [] && Numbered(ipages)
    requires forall i :: 0 <= i < |ipages.pages| ==>
               (!ipages.pages[i].isInMem && ipages.pages[i].node.prev == null && ipages.pages[i].node.next == null)
    ensures Coherent(stack, ipages)
  {
  }

  /** Why a session ended, in terms of the request it stopped at. */
  ghost predicate EndsBecause(size: int, capacity: int, requests: seq<int>, served: nat, r: Outcome) {
    && served <= |requests|
    && (forall i :: 0 <= i < served ==> requests[i] < size)
    && (served > 0 ==> capacity >= 1)
    && (r == Done ==> served == |requests|)
    && (r == Died ==> served < |requests| && (requests[served] >= size || capacity <= 0))
  }

  lemma RunNext(k: int, requests: seq<int>, served: nat)
    requires k >= 1 && served < |requests|
    ensures Run(k, requests[..served + 1]) == Touch(k, Run(k, requests[..served]), requests[served])
  {
    assert requests[..served + 1] == requests[..served] + [requests[served]];
    RunSnoc(k, requests[..served], requests[served]);
  }

  /** The loop of main on an empty memory, cut off after the given requests. */
  method Serve(stack: Stack, ipages: Ipages, requests: seq<int>) returns (served: nat, r: Outcome)
    requires Coherent(stack, ipages) && stack.nodes == []
    requires forall i :: 0 <= i < |requests| ==> requests[i] >= 0
    modifies stack, stack.top, ipages.pages, PageNodes(ipages.pages)
    ensures Coherent(stack, ipages)
    ensures EndsBecause(ipages.size, stack.Capacity(), requests, served, r)
    ensures stack.Capacity() <= 0 ==> stack.nodes == []
    ensures stack.Capacity() >= 1 ==> Labels(stack.nodes) == Run(stack.Capacity(), requests[..served])
  {
    assert stack.Capacity() >= 1 ==> Labels(stack.nodes) == Run(stack.Capacity(), requests[..0]);
    hide Linked, Flagged, Embedded, NoDup, Touch, Numbered, Labels, Run;
    served, r := 0, Done;
    while served < |requests|
      invariant served <= |requests|
      invariant Coherent(stack, ipages)
      invariant r == Done && (served > 0 ==> stack.Capacity() >= 1)
      invariant forall i :: 0 <= i < served ==> requests[i] < ipages.size
      invariant stack.Capacity() <= 0 ==> stack.nodes == []
      invariant stack.Capacity() >= 1 ==> Labels(stack.nodes) == Run(stack.Capacity(), requests[..served])
    {
      OnlyPages(stack, ipages);
      r := UsePage(stack, ipages, requests[served]);
      if r == Died {
        return;
      }
      RunNext(stack.Capacity(), requests, served);
      served := served + 1;
    }
  }

  /**
   * The program of LRU/main.c on a finite list of requests: build the table
   * and the stack, then serve.  `garbage` is what the new stack's size word
   * holds.  The list shown at the end is the list of the most recently used
   * pages among the requests served, with capacity contain - garbage.
   */
  method Session(pagenums: int, contain: int, garbage: int, requests: seq<int>)
    returns (served: nat, r: Outcome, shown: seq<int>)
    requires pagenums >= 0
    requires forall i :: 0 <= i < |requests| ==> requests[i] >= 0
    ensures EndsBecause(pagenums, contain - garbage, requests, served, r)
    ensures contain - garbage <= 0 ==> shown == []
    ensures contain - garbage >= 1 ==> TopK(contain - garbage, requests[..served], shown)
  {
    var ipages := InitIpages(pagenums);
    var stack := new Stack(contain, garbage);
    EmptyCoherent(stack, ipages);
    assert Labels([]) == [];
    hide Coherent, Stack.Valid, TopK, Run, Numbered, Labels, NoDup, Flagged, Embedded, EndsBecause;
    served, r := Serve(stack, ipages, requests);
    shown := ShowList(stack, ipages);
    ServedTopK(pagenums, contain - garbage, requests, served, r, shown);
  }

  method ShowList(stack: Stack, ipages: Ipages) returns (shown: seq<int>)
    requires Coherent(stack, ipages)
    ensures shown == Labels(stack.nodes)
  {
    var absent;
    absent, shown := PrintLRU(stack, ipages);
  }

  lemma ServedTopK(size: int, k: int, requests: seq<int>, served: nat, r: Outcome, shown: seq<int>)
    requires EndsBecause(size, k, requests, served, r)
    requires k >= 1 ==> shown == Run(k, requests[..served])
    ensures k >= 1 ==> TopK(k, requests[..served], shown)
  {
    if k >= 1 {
      HistoryRefinement(k, requests[..served], shown);
    }
  }
}
