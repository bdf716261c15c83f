/** The parser's allocations (json.c:15-18, 67-108, 465-474): every block
    mem_alloc hands out is linked at the head of a doubly linked list, so
    that free_allocs can release a whole parse at once. */
module Arena {
  import opened JsonTypes
  import opened Unicode

  /** struct alloc: the list links, and the bytes the caller is given. */
  class Block {
    var prev: Block?
    var next: Block?
    const data: array<Byte>

    constructor (size: nat)
      ensures prev == null && next == null
      ensures fresh(data) && data.Length == size
    {
      prev := null;
      next := null;
      data := new Byte[size];
    }
  }

  /** b with one occurrence of x replaced by y. */
  function Replace(b: seq<Block>, x: Block, y: Block): (r: seq<Block>)
    ensures |r| == |b|
    ensures forall k :: 0 <= k < |b| ==> r[k] == if b[k] == x then y else b[k]
  {
    if b == [] then [] else [if b[0] == x then y else b[0]] + Replace(b[1..], x, y)
  }

  /** The allocation list of one parser: alloc_head and the blocks it
      reaches, most recent first. */
  class Arena {
    var head: Block?
    /** The blocks of the list, from alloc_head along next. */
    ghost var blocks: seq<Block>

    /** The links of every block follow the order of blocks. */
    ghost predicate Valid()
      reads this, blocks
    {
      && (forall j, k :: 0 <= j < k < |blocks| ==> blocks[j] != blocks[k])
      && head == (if blocks == [] then null else blocks[0])
      && (forall k {:trigger blocks[k].next} :: 0 <= k < |blocks| ==>
            blocks[k].next == if k + 1 < |blocks| then blocks[k + 1] else null)
      && (forall k {:trigger blocks[k].prev} :: 0 <= k < |blocks| ==>
            blocks[k].prev == if k == 0 then null else blocks[k - 1])
    }

    /** json_create_parser sets alloc_head to NULL (json.c:455-463). */
    constructor ()
      ensures Valid() && blocks == []
    {
      head := null;
      blocks := [];
    }

    /** mem_alloc (json.c:67-85): a fresh block of size bytes at the head of
        the list, or "too large allocation" when the header would not fit
        into a size_t. */
    method Alloc(size: nat) returns (r: Outcome<Block>)
      requires Valid()
      modifies this, blocks
      ensures Valid()
      ensures r.Err? <==> size > SizeMax - AllocHeader
      ensures r.Err? ==> r.error == TooLargeAllocation && blocks == old(blocks)
      ensures r.Ok? ==> && fresh(r.value) && fresh(r.value.data)
                        && r.value.data.Length == size
                        && blocks == [r.value] + old(blocks)                       
    {
      if size > SizeMax - AllocHeader {
        return Err(TooLargeAllocation);
      }
      var a := new Block(size);
      a.next := head;
      if head != null {
        head.prev := a;
      }
      head := a;
      blocks := [a] + blocks;
      assert forall k :: 1 <= k < |blocks| ==> blocks[k] == old(blocks)[k - 1];
      return Ok(a);
    }

    /** mem_realloc (json.c:87-108): a null block is a fresh allocation;
        any other block is moved to a fresh block of size bytes that keeps
        the bytes both sizes have in common and takes the old block's place
        in the list. */
    method Realloc(b: Block?, size: nat) returns (r: Outcome<Block>)
      requires Valid() && (b != null ==> b in blocks)
      modifies this, blocks
      ensures Valid()
      ensures b == null ==> && (r.Err? <==> size > SizeMax - AllocHeader)
                            && (r.Err? ==> r.error == TooLargeAllocation && blocks == old(blocks))
                            && (r.Ok? ==> blocks == [r.value] + old(blocks))
      ensures b != null ==> r.Ok? && blocks == Replace(old(blocks), b, r.value)
      ensures r.Ok? ==> && fresh(r.value) && fresh(r.value.data)
                        && r.value.data.Length == size
      ensures r.Ok? && b != null ==>
                var n := if size < b.data.Length then size else b.data.Length;
                r.value.data[..n] == b.data[..n]
    {
      if b == null {
        r := Alloc(size);
      } else {
        var n := Resize(b, size);
        r := Ok(n);
      }
    }

    /** mem_realloc on a block of the list (json.c:96-107). */
    method Resize(b: Block, size: nat) returns (n: Block)
      requires Valid() && b in blocks
      modifies this, blocks
      ensures Valid() && blocks == Replace(old(blocks), b, n)
      ensures fresh(n) && fresh(n.data) && n.data.Length == size
      ensures var common := if size < b.data.Length then size else b.data.Length;
              n.data[..common] == b.data[..common]
    {
      ghost var k :| 0 <= k < |blocks| && blocks[k] == b;
      n := Move(b, size);
      ReplaceAt(blocks, k, n);
      Relink(b, n, k);
    }

    /** The relinking of mem_realloc (json.c:100-105): n, which realloc gave
        b's links, takes b's place in the list. */
    method Relink(b: Block, n: Block, ghost k: nat)
      requires Valid() && k < |blocks| && blocks[k] == b && n !in blocks
      requires n.prev == b.prev && n.next == b.next
      modifies this, blocks, n
      ensures Valid()
      ensures blocks == old(blocks)[k := n]
    {
      ghost var ob := blocks;
      assert k + 1 < |ob| ==> ob[k + 1] in blocks && ob[k + 1].prev == b;
      assert k > 0 ==> ob[k - 1] in blocks && ob[k - 1].next == b;
      if n.next != null {
        n.next.prev := n;
      }
      if n.prev != null {
        n.prev.next := n;
      }
      if head == b {
        head := n;
      }
      blocks := blocks[k := n];
      forall j | 0 <= j < |blocks|
        ensures blocks[j].next == if j + 1 < |blocks| then blocks[j + 1] else null
      {
        if j != k {
          assert blocks[j] == ob[j];
          assert old(ob[j].next) == if j + 1 < |ob| then ob[j + 1] else null;
        }
      }
      forall j | 0 <= j < |blocks|
        ensures blocks[j].prev == if j == 0 then null else blocks[j - 1]
      {
        if j != k {
          assert blocks[j] == ob[j];
          assert old(ob[j].prev) == if j == 0 then null else ob[j - 1];
        }
      }
    }

    /** free_allocs (json.c:465-474): walks the list from its head, releasing
        every block once and in list order (the walk is freed), and leaves
        it empty. */
    method FreeAll() returns (ghost freed: seq<Block>)
      requires Valid()
      modifies this
      ensures Valid() && blocks == [] && head == null
      ensures freed == old(blocks)
    {
      var curr := head;
      ghost var k := 0;
      freed := [];
      while curr != null
        invariant Valid() && blocks == old(blocks)
        invariant 0 <= k <= |blocks|
        invariant curr == if k < |blocks| then blocks[k] else null
        invariant freed == blocks[..k]
        decreases |blocks| - k
      {
        assert curr == blocks[k];
        assert Valid();
        assert blocks[k].next == if k + 1 < |blocks| then blocks[k + 1] else null;
        freed := freed + [curr];
        curr := curr.next;
        k := k + 1;
      }
      head := null;
      blocks := [];
    }
  }

  /** What realloc itself does (json.c:97): a fresh block of size bytes
      holding the old block's header and the bytes both sizes have in
      common. */
  method Move(b: Block, size: nat) returns (n: Block)
    ensures fresh(n) && fresh(n.data) && n.data.Length == size
    ensures n.prev == b.prev && n.next == b.next
    ensures var common := if size < b.data.Length then size else b.data.Length;
            n.data[..common] == b.data[..common]
  {
    n := new Block(size);
    var common := if size < b.data.Length then size else b.data.Length;
    var i := 0;
    while i < common
      modifies n.data
      invariant 0 <= i <= common
      invariant n.data[..i] == b.data[..i]
    {
      n.data[i] := b.data[i];
      i := i + 1;
    }
    n.prev := b.prev;
    n.next := b.next;
  }

  /** Replacing the block at its index is Replace, when the blocks are
      distinct. */
  lemma ReplaceAt(b: seq<Block>, k: nat, y: Block)
    requires k < |b|
    requires forall i, j :: 0 <= i < j < |b| ==> b[i] != b[j]
    ensures b[k := y] == Replace(b, b[k], y)
  {
  }
}
