/** The pool of message cells: a list of unused cells and a doubly linked list of used ones. */
module CellPool {
  import opened Sequences

  const CELL_SIZE: nat := 2048

  class Cell {
    const data: nat        // where the cell's slice of the message buffer starts
    const length: nat
    var next: Cell?
    var prev: Cell?

    constructor (data: nat, next: Cell?)
      ensures this.data == data && this.length == CELL_SIZE && this.next == next && prev == null
    {
      this.data, this.length, this.next, this.prev := data, CELL_SIZE, next, null;
    }
  }

  ghost predicate NextOk(s: seq<Cell>, i: nat)
    requires i < |s|
    reads s
  {
    s[i].next == if i + 1 < |s| then s[i + 1] else null
  }

  ghost predicate PrevOk(s: seq<Cell>, i: nat)
    requires i < |s|
    reads s
  {
    s[i].prev == if i > 0 then s[i - 1] else null
  }

  /** The cells of `s` are chained by their next pointers, from `head` to null. */
  ghost predicate Chained(s: seq<Cell>, head: Cell?)
    reads s
  {
    && head == (if s == [] then null else s[0])
    && forall i | 0 <= i < |s| :: NextOk(s, i)
  }

  /** The prev pointers of `s` lead back to null. */
  ghost predicate Backlinked(s: seq<Cell>)
    reads s
  {
    forall i | 0 <= i < |s| :: PrevOk(s, i)
  }

  /** `used` and `unused` hold each of the cells exactly once. */
  ghost predicate Partition(cells: set<Cell>, used: seq<Cell>, unused: seq<Cell>) {
    && (forall i | 0 <= i < |used| :: used[i] in cells)
    && (forall i | 0 <= i < |unused| :: unused[i] in cells)
    && Distinct(used) && Distinct(unused)
    && (forall i, j | 0 <= i < |used| && 0 <= j < |unused| :: used[i] != unused[j])
    && |used| + |unused| == |cells|
  }

  ghost predicate SlicesDisjoint(cells: set<Cell>) {
    forall c, d | c in cells && d in cells && c != d :: c.data + c.length <= d.data || d.data + d.length <= c.data
  }

  lemma {:induction false} SubsetOfSameSize(a: set<Cell>, b: set<Cell>)
    requires a <= b && |a| >= |b|
    ensures a == b
  {
    assert b == a + (b - a);
    assert |b - a| == |b| - |a|;
  }

  /** No cell gets lost: each is in one of the lists. */
  lemma {:induction false} PartitionCovers(cells: set<Cell>, used: seq<Cell>, unused: seq<Cell>, c: Cell)
    requires Partition(cells, used, unused) && c in cells
    ensures c in used || c in unused
    ensures !(c in used && c in unused)
  {
    var both := used + unused;
    CountDistinct(both);
    SubsetOfSameSize(Elements(both), cells);
  }

  /** The used lists and unused lists after taking the first unused cell, and after giving back a used one. */
  lemma {:induction false} PartitionTouched(cells: set<Cell>, used: seq<Cell>, unused: seq<Cell>)
    requires Partition(cells, used, unused) && unused != []
    ensures Partition(cells, [unused[0]] + used, unused[1..])
  {
  }

  lemma {:induction false} PartitionDetouched(cells: set<Cell>, used: seq<Cell>, unused: seq<Cell>, k: nat)
    requires Partition(cells, used, unused) && k < |used|
    ensures Partition(cells, used[..k] + used[k + 1..], [used[k]] + unused)
  {
    var used' := used[..k] + used[k + 1..];
    forall i | 0 <= i < |used'| ensures used'[i] == used[if i < k then i else i + 1] {
    }
  }

  class Pool {
    var unusedHead: Cell?
    var usedHead: Cell?

    ghost var unused: seq<Cell>
    ghost var used: seq<Cell>
    ghost const cells: set<Cell>

    /** Both lists are acyclic and end in null, the used one is doubly linked, the first unused cell has no
        predecessor, and together they are the cells of the pool, each once. */
    ghost predicate Valid()
      reads this, cells
    {
      && Partition(cells, used, unused) && SlicesDisjoint(cells)
      && Chained(used, usedHead) && Backlinked(used)
      && Chained(unused, unusedHead) && (unused != [] ==> unused[0].prev == null)
    }

    /** A pool of `queueSize` unused cells over disjoint slices of the message buffer. */
    constructor (queueSize: nat)
      ensures Valid() && used == [] && |unused| == queueSize && fresh(cells)
      ensures forall i | 0 <= i < |unused| :: unused[i].data == CELL_SIZE * (queueSize - 1 - i) && unused[i].length == CELL_SIZE
    {
      unusedHead, usedHead := null, null;
      unused, used := [], [];
      var head: Cell? := null;
      ghost var list: seq<Cell> := [];
      ghost var all: set<Cell> := {};
      for i := 0 to queueSize
        invariant |list| == i && fresh(all) && all == Elements(list)
        invariant Chained(list, head) && Distinct(list)
        invariant forall k | 0 <= k < i :: list[k].data == CELL_SIZE * (i - 1 - k) && list[k].length == CELL_SIZE && list[k].prev == null
      {
        ghost var before := list;
        var cell := new Cell(CELL_SIZE * i, head);
        list := [cell] + list;
        all := all + {cell};
        head := cell;
        forall k | 0 <= k < |list| ensures NextOk(list, k) {
          assert k > 0 ==> NextOk(before, k - 1);
        }
      }
      CountDistinct(list);
      unusedHead, unused, cells := head, list, all;
    }

    /** Takes the first unused cell; none if all are in use. */
    method TouchMemCell() returns (result: Cell?)
      requires Valid()
      modifies this, cells
      ensures Valid()
      ensures old(unused) == [] ==> result == null && used == old(used) && unused == []
      ensures old(unused) != [] ==> result == old(unused)[0] && used == [result] + old(used) && unused == old(unused)[1..]
    {
      hide SlicesDisjoint;
      result := null;
      if unusedHead != null {
        ghost var used0, unused0 := used, unused;
        PartitionTouched(cells, used, unused);
        result := unusedHead;
        assert NextOk(unused, 0);
        unusedHead := result.next;
        if unusedHead != null {
          unusedHead.prev := null;
        }
        if usedHead != null {
          usedHead.prev := result;
        }
        result.next := usedHead;
        usedHead := result;
        used := [result] + used;
        unused := unused[1..];
        forall i | 0 <= i < |unused| ensures NextOk(unused, i) {
          assert old(NextOk(unused0, i + 1));
        }
        forall i | 0 <= i < |used| ensures NextOk(used, i) && PrevOk(used, i) {
          assert i > 0 ==> old(NextOk(used0, i - 1)) && old(PrevOk(used0, i - 1));
        }
      }
    }

    /** The used list without its `k`-th cell. */
    method Unlink(cell: Cell, ghost k: nat)
      requires Valid() && k < |used| && used[k] == cell
      modifies this`used, this`usedHead, used
      ensures used == old(used)[..k] + old(used)[k + 1..]
      ensures Chained(used, usedHead) && Backlinked(used)
    {
      hide SlicesDisjoint;
      ghost var u := used;
      assert NextOk(u, k) && PrevOk(u, k);
      if usedHead != cell {
        cell.prev.next := cell.next;
      } else {
        usedHead := cell.next;
      }
      if cell.next != null {
        cell.next.prev := cell.prev;
      }
      used := u[..k] + u[k + 1..];
      forall i | 0 <= i < |used| ensures NextOk(used, i) && PrevOk(used, i) {
        var j := if i < k then i else i + 1;
        assert used[i] == u[j] && old(NextOk(u, j)) && old(PrevOk(u, j));
      }
    }

    /** Gives back any used cell; `k` tells where in the used list it is. */
    method DetouchMemCell(cell: Cell, ghost k: nat)
      requires Valid() && k < |used| && used[k] == cell
      modifies this, cells
      ensures Valid()
      ensures unused == [cell] + old(unused) && used == old(used)[..k] + old(used)[k + 1..]
    {
      hide SlicesDisjoint;
      ghost var unused0 := unused;
      PartitionDetouched(cells, used, unused, k);
      Unlink(cell, k);
      ghost var used1 := used;
      label Unlinked:
      if unusedHead != null {
        unusedHead.prev := cell;
      }
      cell.next := unusedHead;
      cell.prev := null;
      unusedHead := cell;
      unused := [cell] + unused;
      forall i | 0 <= i < |used| ensures NextOk(used, i) && PrevOk(used, i) {
        assert old@Unlinked(NextOk(used1, i)) && old@Unlinked(PrevOk(used1, i));
        assert used[i] == old(used)[if i < k then i else i + 1];
      }
      forall i | 0 <= i < |unused| ensures NextOk(unused, i) {
        assert i > 0 ==> old(NextOk(unused0, i - 1));
      }
    }
  }
}
