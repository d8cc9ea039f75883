/** SLOB block headers in page memory: free blocks are doubly linked in address order, blocks in use
    carry a magic number. */
module SlobHeaders {
  import opened SlobPages

  const SLOB_MAGIC: nat := 0x510B1234
  const NULL: nat := 0

  datatype Header = Header(size: nat, magic: nat, next: nat, prev: nat)

  type Memory = map<nat, Header>

  function AddrAt(cells: seq<Cell>, i: int): nat {
    if 0 <= i < |cells| then cells[i].addr else NULL
  }

  ghost predicate CellLinked(mem: Memory, cells: seq<Cell>, i: nat)
    requires i < |cells|
  {
    && cells[i].addr in mem
    && mem[cells[i].addr] == Header(cells[i].size, 0, AddrAt(cells, i + 1), AddrAt(cells, i - 1))
  }

  /** The free list that starts at the first cell runs through all of them, forth and back. */
  ghost predicate CellChain(mem: Memory, cells: seq<Cell>) {
    forall i {:trigger CellLinked(mem, cells, i)} :: 0 <= i < |cells| ==> CellLinked(mem, cells, i)
  }

  ghost predicate LiveCell(mem: Memory, c: Cell) {
    c.addr in mem && mem[c.addr].magic == SLOB_MAGIC && mem[c.addr].size == c.size
  }

  ghost predicate LiveCells(mem: Memory, cells: seq<Cell>) {
    forall i :: 0 <= i < |cells| ==> LiveCell(mem, cells[i])
  }

  ghost predicate DistinctCells(cells: seq<Cell>) {
    && (forall i, j :: 0 <= i < j < |cells| ==> cells[i].addr != cells[j].addr)
    && (forall i :: 0 <= i < |cells| ==> cells[i].addr != NULL)
  }

  function SetNext(mem: Memory, a: nat, x: nat): Memory
    requires a != NULL ==> a in mem
  {
    if a == NULL then mem else mem[a := mem[a].(next := x)]
  }

  function SetPrev(mem: Memory, a: nat, x: nat): Memory
    requires a != NULL ==> a in mem
  {
    if a == NULL then mem else mem[a := mem[a].(prev := x)]
  }

  /** m differs from mem only at cells of a list and at one more address. */
  ghost predicate Touches(m: Memory, mem: Memory, cells: seq<Cell>, extra: nat) {
    && mem.Keys <= m.Keys
    && forall a :: a in mem && a != extra && (forall i :: 0 <= i < |cells| ==> cells[i].addr != a) ==> m[a] == mem[a]
  }

  lemma At(left: seq<Cell>, mid: seq<Cell>, right: seq<Cell>)
    ensures var t := left + mid + right;
            forall i :: 0 <= i < |t| ==> t[i] == if i < |left| then left[i]
              else if i < |left| + |mid| then mid[i - |left|] else right[i - |left| - |mid|]
  {
  }

  function Last(cells: seq<Cell>): nat {
    AddrAt(cells, |cells| - 1)
  }

  function First(cells: seq<Cell>): nat {
    AddrAt(cells, 0)
  }

  /** The first address of two lists in a row, and the last one. */
  function FirstOf(a: seq<Cell>, b: seq<Cell>): nat {
    if a == [] then First(b) else First(a)
  }

  function LastOf(a: seq<Cell>, b: seq<Cell>): nat {
    if b == [] then Last(a) else Last(b)
  }

  ghost predicate LeftKept(m: Memory, mem: Memory, left: seq<Cell>, next: nat) {
    forall i :: 0 <= i < |left| ==>
      && left[i].addr in mem && left[i].addr in m
      && m[left[i].addr] == if i == |left| - 1 then mem[left[i].addr].(next := next) else mem[left[i].addr]
  }

  ghost predicate RightKept(m: Memory, mem: Memory, right: seq<Cell>, prev: nat) {
    forall i :: 0 <= i < |right| ==>
      && right[i].addr in mem && right[i].addr in m
      && m[right[i].addr] == if i == 0 then mem[right[i].addr].(prev := prev) else mem[right[i].addr]
  }

  ghost predicate MiddleSet(m: Memory, mid: seq<Cell>, prev: nat, next: nat) {
    forall i {:trigger MiddleAt(m, mid, prev, next, i)} :: 0 <= i < |mid| ==> MiddleAt(m, mid, prev, next, i)
  }

  ghost predicate MiddleAt(m: Memory, mid: seq<Cell>, prev: nat, next: nat, i: nat)
    requires i < |mid|
  {
    && mid[i].addr in m
    && m[mid[i].addr] == Header(mid[i].size, 0, if i + 1 < |mid| then mid[i + 1].addr else next,
                                if i > 0 then mid[i - 1].addr else prev)
  }

  /** Replacing the middle of a list: only the links of its two neighbours and the new middle change. */
  lemma Splice(mem: Memory, m: Memory, left: seq<Cell>, mid: seq<Cell>, right: seq<Cell>, into: seq<Cell>)
    requires CellChain(mem, left + mid + right)
    requires LeftKept(m, mem, left, FirstOf(into, right))
    requires RightKept(m, mem, right, LastOf(left, into))
    requires MiddleSet(m, into, Last(left), First(right))
    ensures CellChain(m, left + into + right)
  {
    var t := left + into + right;
    forall i: nat | i < |t| ensures CellLinked(m, t, i) {
      if i < |left| {
        SpliceLeft(mem, m, left, mid, right, into, i);
      } else if i < |left| + |into| {
        SpliceMiddle(m, left, right, into, i);
      } else {
        SpliceRight(mem, m, left, mid, right, into, i);
      }
    }
  }

  lemma SpliceLeft(mem: Memory, m: Memory, left: seq<Cell>, mid: seq<Cell>, right: seq<Cell>, into: seq<Cell>, i: nat)
    requires CellChain(mem, left + mid + right) && LeftKept(m, mem, left, FirstOf(into, right)) && i < |left|
    ensures CellLinked(m, left + into + right, i)
  {
    var s, t := left + mid + right, left + into + right;
    assert CellLinked(mem, s, i);
    hide CellChain;
    assert s[i] == t[i] == left[i];
    assert AddrAt(t, i - 1) == AddrAt(s, i - 1);
    assert AddrAt(t, i + 1) == if i == |left| - 1 then FirstOf(into, right) else AddrAt(s, i + 1);
  }

  lemma SpliceMiddle(m: Memory, left: seq<Cell>, right: seq<Cell>, into: seq<Cell>, i: nat)
    requires MiddleSet(m, into, Last(left), First(right)) && |left| <= i < |left| + |into|
    ensures CellLinked(m, left + into + right, i)
  {
    var k, t := i - |left|, left + into + right;
    assert t[i] == into[k] && MiddleAt(m, into, Last(left), First(right), k);
    assert AddrAt(t, i - 1) == if k > 0 then into[k - 1].addr else Last(left);
    assert AddrAt(t, i + 1) == if k + 1 < |into| then into[k + 1].addr else First(right);
  }

  lemma SpliceRight(mem: Memory, m: Memory, left: seq<Cell>, mid: seq<Cell>, right: seq<Cell>, into: seq<Cell>, i: nat)
    requires CellChain(mem, left + mid + right) && RightKept(m, mem, right, LastOf(left, into))
    requires |left| + |into| <= i < |left| + |into| + |right|
    ensures CellLinked(m, left + into + right, i)
  {
    var s, t := left + mid + right, left + into + right;
    var k := i - |left| - |into|;
    var j := k + |left| + |mid|;
    assert CellLinked(mem, s, j);
    hide CellChain;
    assert s[j] == t[i] == right[k];
    assert AddrAt(t, i + 1) == AddrAt(s, j + 1);
    assert AddrAt(t, i - 1) == if k == 0 then LastOf(left, into) else AddrAt(s, j - 1);
  }

  lemma DistinctParts(left: seq<Cell>, mid: seq<Cell>, right: seq<Cell>)
    requires DistinctCells(left + mid + right)
    ensures DistinctCells(left) && DistinctCells(mid) && DistinctCells(right)
    ensures forall i, j :: 0 <= i < |left| && 0 <= j < |right| ==> left[i].addr != right[j].addr
    ensures forall i, j :: 0 <= i < |left| && 0 <= j < |mid| ==> left[i].addr != mid[j].addr
    ensures forall i, j :: 0 <= i < |right| && 0 <= j < |mid| ==> right[i].addr != mid[j].addr
  {
    var t, n, m := left + mid + right, |left|, |left| + |mid|;
    At(left, mid, right);
    assert forall i :: 0 <= i < |left| ==> t[i] == left[i];
    assert forall i :: 0 <= i < |mid| ==> t[n + i] == mid[i];
    assert forall i :: 0 <= i < |right| ==> t[m + i] == right[i];
  }

  /** A chain knows the headers of its three parts. */
  lemma ChainParts(mem: Memory, left: seq<Cell>, mid: seq<Cell>, right: seq<Cell>)
    requires CellChain(mem, left + mid + right)
    ensures forall i :: 0 <= i < |left| ==> left[i].addr in mem
    ensures forall i :: 0 <= i < |right| ==> right[i].addr in mem
    ensures MiddleSet(mem, mid, Last(left), First(right))
    ensures left != [] ==> mem[Last(left)].next == FirstOf(mid, right)
    ensures right != [] ==> mem[First(right)].prev == LastOf(left, mid)
  {
    var t, n, m := left + mid + right, |left|, |left| + |mid|;
    At(left, mid, right);
    forall i: nat | i < |left| ensures left[i].addr in mem { assert CellLinked(mem, t, i); }
    forall i: nat | i < |right| ensures right[i].addr in mem { assert CellLinked(mem, t, m + i); }
    forall i: nat | i < |mid| ensures MiddleAt(mem, mid, Last(left), First(right), i) {
      assert CellLinked(mem, t, n + i);
    }
    if left != [] { assert CellLinked(mem, t, n - 1); }
    if right != [] { assert CellLinked(mem, t, m); }
  }

  /** Writing headers that are not on a list. */
  lemma ChainElsewhere(mem: Memory, m: Memory, cells: seq<Cell>)
    requires CellChain(mem, cells)
    requires forall i :: 0 <= i < |cells| && cells[i].addr in mem ==>
      cells[i].addr in m && m[cells[i].addr] == mem[cells[i].addr]
    ensures CellChain(m, cells)
  {
    forall i: nat | i < |cells| ensures CellLinked(m, cells, i) { assert CellLinked(mem, cells, i); }
  }

  /** The links at the edge of a list belong to its cells. */
  lemma LinksAreMembers(left: seq<Cell>, mid: seq<Cell>, right: seq<Cell>)
    ensures var t := left + mid + right;
      && (left != [] ==> |left| - 1 < |t| && t[|left| - 1].addr == Last(left))
      && (right != [] ==> |left| + |mid| < |t| && t[|left| + |mid|].addr == First(right))
      && (mid != [] ==> t[|left|] == mid[0])
  {
  }

  /** remove_free_block: prev->next and next->prev skip the block. */
  function UnlinkMem(mem: Memory, prev: nat, next: nat): Memory
    requires (prev != NULL ==> prev in mem) && (next != NULL ==> next in mem)
  {
    SetPrev(SetNext(mem, prev, next), next, prev)
  }

  lemma Unlinked(mem: Memory, left: seq<Cell>, c: Cell, right: seq<Cell>)
    requires CellChain(mem, left + [c] + right) && DistinctCells(left + [c] + right)
    ensures c.addr in mem && mem[c.addr] == Header(c.size, 0, First(right), Last(left))
    ensures (Last(left) != NULL ==> Last(left) in mem) && (First(right) != NULL ==> First(right) in mem)
    ensures var m := UnlinkMem(mem, Last(left), First(right));
      && CellChain(m, left + right) && m[c.addr] == mem[c.addr]
      && Touches(m, mem, left + [c] + right, c.addr)
  {
    ChainParts(mem, left, [c], right);
    DistinctParts(left, [c], right);
    LinksAreMembers(left, [c], right);
    hide CellChain, DistinctCells;
    assert MiddleAt(mem, [c], Last(left), First(right), 0);
    assert left + [] + right == left + right;
    UnlinkKeeps(mem, left, c, right);
    UnlinkTouches(mem, left, c, right);
    Splice(mem, UnlinkMem(mem, Last(left), First(right)), left, [c], right, []);
  }

  /** The two writes change the links of the neighbours, and no more. */
  lemma UnlinkKeeps(mem: Memory, left: seq<Cell>, c: Cell, right: seq<Cell>)
    requires DistinctCells(left) && DistinctCells(right)
    requires forall i, j :: 0 <= i < |left| && 0 <= j < |right| ==> left[i].addr != right[j].addr
    requires forall i :: 0 <= i < |left| ==> left[i].addr in mem && left[i].addr != c.addr
    requires forall i :: 0 <= i < |right| ==> right[i].addr in mem && right[i].addr != c.addr
    requires c.addr in mem
    ensures (Last(left) != NULL ==> Last(left) in mem) && (First(right) != NULL ==> First(right) in mem)
    ensures var m := UnlinkMem(mem, Last(left), First(right));
      LeftKept(m, mem, left, First(right)) && RightKept(m, mem, right, Last(left)) && c.addr in m && m[c.addr] == mem[c.addr]
      && MiddleSet(m, [], Last(left), First(right))
  {
  }

  lemma UnlinkTouches(mem: Memory, left: seq<Cell>, c: Cell, right: seq<Cell>)
    requires (Last(left) != NULL ==> Last(left) in mem) && (First(right) != NULL ==> First(right) in mem)
    ensures Touches(UnlinkMem(mem, Last(left), First(right)), mem, left + [c] + right, c.addr)
  {
    LinksAreMembers(left, [c], right);
  }

  /** split_block: the rest of the block becomes a free block behind it. */
  function SplitMem(mem: Memory, block: nat, size: nat): Memory
    requires block in mem && mem[block].size >= size
    requires mem[block].next != NULL ==> mem[block].next in mem
  {
    var rest := block + size;
    var m := SetPrev(mem[rest := Header(mem[block].size - size, 0, mem[block].next, block)], mem[block].next, rest);
    m[block := mem[block].(next := rest, size := size)]
  }

  lemma SplitInTwo(mem: Memory, left: seq<Cell>, c: Cell, right: seq<Cell>, size: nat)
    requires CellChain(mem, left + [c] + right) && DistinctCells(left + [c] + right)
    requires 0 < size < c.size && c.addr != NULL
    requires forall i :: 0 <= i < |left| ==> left[i].addr != c.addr + size
    requires forall i :: 0 <= i < |right| ==> right[i].addr != c.addr + size
    ensures c.addr in mem && mem[c.addr] == Header(c.size, 0, First(right), Last(left))
    ensures First(right) != NULL ==> First(right) in mem
    ensures CellChain(SplitMem(mem, c.addr, size),
                      left + [Cell(c.addr, size), Cell(c.addr + size, c.size - size)] + right)
    ensures Touches(SplitMem(mem, c.addr, size), mem, left + [c] + right, c.addr + size)
  {
    LinksAreMembers(left, [c], right);
    ChainParts(mem, left, [c], right);
    DistinctParts(left, [c], right);
    assert MiddleAt(mem, [c], Last(left), First(right), 0);
    assert [c][0] == c;
    var m := SplitMem(mem, c.addr, size);
    Splice(mem, m, left, [c], right, [Cell(c.addr, size), Cell(c.addr + size, c.size - size)]);
  }

  /** add_free_block: the block goes between prev and next. */
  function InsertMem(mem: Memory, block: nat, prev: nat, next: nat): Memory
    requires block in mem && (prev != NULL ==> prev in mem) && (next != NULL ==> next in mem)
  {
    SetNext(SetPrev(mem[block := mem[block].(next := next, prev := prev)], next, block), prev, block)
  }

  lemma Inserted(mem: Memory, left: seq<Cell>, c: Cell, right: seq<Cell>)
    requires CellChain(mem, left + right) && DistinctCells(left + [c] + right)
    requires c.addr in mem && mem[c.addr].size == c.size && mem[c.addr].magic == 0
    ensures (Last(left) != NULL ==> Last(left) in mem) && (First(right) != NULL ==> First(right) in mem)
    ensures CellChain(InsertMem(mem, c.addr, Last(left), First(right)), left + [c] + right)
    ensures Touches(InsertMem(mem, c.addr, Last(left), First(right)), mem, left + right, c.addr)
  {
    LinksAreMembers(left, [], right);
    assert left + [] + right == left + right;
    ChainParts(mem, left, [], right);
    DistinctParts(left, [c], right);
    assert [c][0] == c;
    Splice(mem, InsertMem(mem, c.addr, Last(left), First(right)), left, [], right, [c]);
  }

  /** One join of merge_free_blocks. */
  function JoinMem(mem: Memory, block: nat, next: nat): Memory
    requires block in mem && next in mem && (mem[next].next != NULL ==> mem[next].next in mem)
  {
    var after := mem[next].next;
    SetPrev(mem[block := mem[block].(size := mem[block].size + mem[next].size, next := after)], after, block)
  }

  lemma Joined(mem: Memory, left: seq<Cell>, c: Cell, d: Cell, right: seq<Cell>)
    requires CellChain(mem, left + [c, d] + right) && DistinctCells(left + [c, d] + right)
    ensures c.addr in mem && d.addr in mem
    ensures mem[c.addr] == Header(c.size, 0, d.addr, Last(left))
    ensures mem[d.addr] == Header(d.size, 0, First(right), c.addr)
    ensures First(right) != NULL ==> First(right) in mem
    ensures CellChain(JoinMem(mem, c.addr, d.addr), left + [Cell(c.addr, c.size + d.size)] + right)
    ensures Touches(JoinMem(mem, c.addr, d.addr), mem, left + [c, d] + right, c.addr)
  {
    LinksAreMembers(left, [c, d], right);
    ChainParts(mem, left, [c, d], right);
    DistinctParts(left, [c, d], right);
    assert [c, d][0] == c && [c, d][1] == d;
    assert MiddleAt(mem, [c, d], Last(left), First(right), 0);
    assert MiddleAt(mem, [c, d], Last(left), First(right), 1);
    Splice(mem, JoinMem(mem, c.addr, d.addr), left, [c, d], right, [Cell(c.addr, c.size + d.size)]);
  }
}
