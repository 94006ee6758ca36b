/** The growable output buffer: a singly linked chain of fixed-size links that
    read_pipe fills from a pipe until end of stream, total_bytes measures and
    free_buffer_chain releases. */
module BufferChain {
  import opened Bytes
  import opened Streams

  /** BUFFER_CHAIN_LINK_SIZE */
  const LinkSize: nat := 16384

  /** struct buffer_chain_t */
  class Link {
    const bytes: array<byte>
    var len: nat
    var next: Link?

    /** malloc followed by memset(0): an empty, unlinked link. */
    constructor ()
      ensures fresh(bytes) && bytes.Length == LinkSize
      ensures len == 0 && next == null
    {
      bytes := new byte[LinkSize](_ => NUL);
      len := 0;
      next := null;
    }
  }

  /** No link, and no link's storage, appears twice. */
  ghost predicate Distinct(links: seq<Link>)
  {
    forall i, j :: 0 <= i < j < |links| ==> links[i] != links[j] && links[i].bytes != links[j].bytes
  }

  /** Every link holds LinkSize bytes of storage and fills at most that much. */
  ghost predicate Sized(links: seq<Link>)
    reads links
  {
    forall i :: 0 <= i < |links| ==> links[i].bytes.Length == LinkSize && links[i].len <= LinkSize
  }

  /** `links` are linked in order from `head`, and the last has no successor. */
  ghost predicate Linked(head: Link, links: seq<Link>)
    reads links
  {
    |links| >= 1 && links[0] == head &&
    (forall i :: 0 <= i < |links| - 1 ==> links[i].next == links[i + 1]) &&
    links[|links| - 1].next == null
  }

  /** `links` lists, in order, the links reached from `head` by following `next` up to null. */
  ghost predicate IsChain(head: Link, links: seq<Link>)
    reads links
  {
    Linked(head, links) && Distinct(links) && Sized(links)
  }

  /** The fill level of each link, in chain order. */
  ghost function Lens(links: seq<Link>): (r: seq<nat>)
    reads links
    ensures |r| == |links| && forall i :: 0 <= i < |links| ==> r[i] == links[i].len
  {
    if links == [] then [] else Lens(links[..|links| - 1]) + [links[|links| - 1].len]
  }

  /** The buffered bytes: the first `len` bytes of each link, in chain order. */
  ghost function ChainBytes(links: seq<Link>): seq<byte>
    requires Sized(links)
    reads links, set l | l in links :: l.bytes
  {
    if links == [] then []
    else
      var last := links[|links| - 1];
      ChainBytes(links[..|links| - 1]) + last.bytes[..last.len]
  }

  function Sum(lens: seq<nat>): nat
  {
    if lens == [] then 0 else Sum(lens[..|lens| - 1]) + lens[|lens| - 1]
  }

  lemma {:induction false} ChainBytesLength(links: seq<Link>)
    requires Sized(links)
    ensures |ChainBytes(links)| == Sum(Lens(links))
  {
    if links != [] {
      ChainBytesLength(links[..|links| - 1]);
      assert Lens(links)[..|links| - 1] == Lens(links[..|links| - 1]);
    }
  }

  /** The shape read_pipe leaves: every link but the last is full, the last is not. */
  ghost predicate Shaped(lens: seq<nat>)
  {
    |lens| >= 1 &&
    (forall i :: 0 <= i < |lens| - 1 ==> lens[i] == LinkSize) &&
    lens[|lens| - 1] < LinkSize
  }

  /** The fill levels of a chain holding n bytes: n / LinkSize full links, then one
      holding the remainder, which is empty when n is a multiple of LinkSize. */
  function ShapeOf(n: nat): (r: seq<nat>)
  {
    seq(n / LinkSize, _ => LinkSize) + [n % LinkSize]
  }

  /** The shape of a chain is determined by the number of bytes it holds. */
  lemma {:induction false} ShapeIsForced(lens: seq<nat>)
    requires Shaped(lens)
    ensures lens == ShapeOf(Sum(lens))
  {
    var k := |lens| - 1;
    var full := lens[..k];
    FullSum(full);
    assert Sum(lens) == k * LinkSize + lens[k];
    DivModUnique(Sum(lens), k, lens[k]);
    assert lens == full + [lens[k]];
  }

  lemma {:induction false} FullSum(full: seq<nat>)
    requires forall i :: 0 <= i < |full| ==> full[i] == LinkSize
    ensures Sum(full) == |full| * LinkSize
    ensures full == seq(|full|, _ => LinkSize)
  {
    if full != [] {
      FullSum(full[..|full| - 1]);
    }
  }

  lemma DivModUnique(n: nat, q: nat, r: nat)
    requires r < LinkSize && n == q * LinkSize + r
    ensures n / LinkSize == q && n % LinkSize == r
  {
  }

  /** An empty stream leaves one empty link. */
  lemma EmptyShape()
    ensures ShapeOf(0) == [0]
  {
  }

  /** The boundary quirk: k full links of output leave k + 1 links, the last empty. */
  lemma ExactMultipleShape(k: nat)
    requires k >= 1
    ensures |ShapeOf(k * LinkSize)| == k + 1
    ensures ShapeOf(k * LinkSize)[k] == 0
  {
    DivModUnique(k * LinkSize, k, 0);
  }

  /** The bytes of a chain whose links but the last are full and hold `blocks`. */
  lemma {:induction false} ChainOfBlocks(links: seq<Link>, blocks: seq<seq<byte>>)
    requires Sized(links) && |links| >= 1 && |blocks| == |links| - 1
    requires forall i :: 0 <= i < |links| - 1 ==> links[i].len == LinkSize && links[i].bytes[..] == blocks[i]
    ensures var last := links[|links| - 1];
      ChainBytes(links) == Flatten(blocks) + last.bytes[..last.len]
  {
    if |links| > 1 {
      var init := links[..|links| - 1];
      ChainOfBlocks(init, blocks[..|blocks| - 1]);
      var prev := init[|init| - 1];
      assert prev.bytes[..prev.len] == blocks[|blocks| - 1];
    }
  }

  /** Every link but the last is full and holds the corresponding block. */
  ghost predicate Full(links: seq<Link>, blocks: seq<seq<byte>>)
    reads links, set i | 0 <= i < |links| - 1 :: links[i].bytes
  {
    |blocks| == |links| - 1 &&
    forall i :: 0 <= i < |links| - 1 ==> links[i].len == LinkSize && links[i].bytes[..] == blocks[i]
  }

  /** The chain while read_pipe fills it: full links holding `blocks`, then the
      current link, not yet closed (its `len` still 0) and last in the chain. */
  ghost predicate Building(head: Link, links: seq<Link>, blocks: seq<seq<byte>>)
    reads links, set i | 0 <= i < |links| - 1 :: links[i].bytes
  {
    Linked(head, links) && Distinct(links) && Sized(links) &&
    links[|links| - 1].len == 0 && Full(links, blocks)
  }

  /** The allocation branch of read_pipe: the full current link is closed and a
      fresh empty link is chained after it. */
  method Grow(head: Link, curr: Link, ghost links: seq<Link>, ghost blocks: seq<seq<byte>>)
    returns (next: Link, ghost links': seq<Link>, ghost blocks': seq<seq<byte>>)
    requires Building(head, links, blocks) && curr == links[|links| - 1]
    modifies curr
    ensures links' == links + [next] && blocks' == blocks + [old(curr.bytes[..])]
    ensures Flatten(blocks') == Flatten(blocks) + curr.bytes[..]
    ensures fresh(next) && fresh(next.bytes)
    ensures Building(head, links', blocks')
  {
    next := new Link();
    ghost var block := curr.bytes[..];
    curr.len := LinkSize;
    curr.next := next;
    links' := links + [next];
    blocks' := blocks + [block];
    assert forall i :: 0 <= i < |links| - 1 ==> links[i] != curr;
    assert Linked(head, links');
    assert Distinct(links');
    assert Sized(links');
    assert Full(links', blocks');
    FlattenSnoc(blocks, block);
  }

  /** The last step of read_pipe, `curr->len = count`: the chain is complete. */
  method Close(head: Link, curr: Link, count: nat, ghost links: seq<Link>, ghost blocks: seq<seq<byte>>)
    requires Building(head, links, blocks) && curr == links[|links| - 1] && count < LinkSize
    modifies curr
    ensures IsChain(head, links)
    ensures ChainBytes(links) == Flatten(blocks) + curr.bytes[..count]
    ensures Lens(links) == ShapeOf(|ChainBytes(links)|)
  {
    curr.len := count;
    assert forall i :: 0 <= i < |links| - 1 ==> links[i] != curr;
    assert Linked(head, links) && Sized(links);
    assert Full(links, blocks);
    ChainOfBlocks(links, blocks);
    ChainBytesLength(links);
    assert Shaped(Lens(links));
    ShapeIsForced(Lens(links));
  }

  /** One read(fd, curr->data + count, space) of read_pipe's loop, and what it adds to
      the bytes gathered so far: the full links and the current link's first `count`
      bytes together hold what has been read from `fd` so far. */
  method Fill(fd: Stream, head: Link, curr: Link, count: nat, space: nat,
              ghost links: seq<Link>, ghost blocks: seq<seq<byte>>,
              ghost input: seq<byte>, ghost got: nat, ghost c0: nat)
    returns (n: nat)
    requires Building(head, links, blocks) && curr == links[|links| - 1]
    requires count + space == LinkSize
    requires got <= |input| && fd.pending == input[got..]
    requires Flatten(blocks) + curr.bytes[..count] == input[..got]
    requires |fd.chunks| >= c0 && Flatten(fd.chunks[c0..]) == input[..got]
    modifies fd`pending, fd`chunks, curr.bytes
    ensures Building(head, links, blocks)
    ensures n <= space && got + n <= |input| && fd.pending == input[got + n..]
    ensures n == 0 <==> space == 0 || got == |input|
    ensures Flatten(blocks) + curr.bytes[..count + n] == input[..got + n]
    ensures |fd.chunks| > c0 && Flatten(fd.chunks[c0..]) == input[..got + n]
    ensures fd.chunks[|fd.chunks| - 1] == input[got..got + n]
  {
    ghost var before := curr.bytes[..count];
    ghost var logged := fd.chunks[c0..];
    assert curr.bytes !in set i | 0 <= i < |links| - 1 :: links[i].bytes;
    n := fd.Read(curr.bytes, count, space);
    ghost var chunk := input[got..got + n];
    assert input[got..][..n] == chunk;
    assert fd.chunks[c0..] == logged + [chunk];
    FlattenSnoc(logged, chunk);
    assert input[..got + n] == input[..got] + chunk;
    Assoc(Flatten(blocks), before, chunk);
  }

  /** The state of read_pipe's loop: the full links and the first `count` bytes of the
      current link hold the first `got` bytes of `input`, which are also the bytes the
      reads since the `c0`-th one returned; `space` bytes of the current link are free. */
  ghost predicate Holding(fd: Stream, head: Link, curr: Link, count: nat, space: nat,
                          links: seq<Link>, blocks: seq<seq<byte>>,
                          input: seq<byte>, got: nat, c0: nat)
    reads fd, links, set l | l in links :: l.bytes
  {
    Building(head, links, blocks) && curr == links[|links| - 1] &&
    count + space == LinkSize &&
    got <= |input| && fd.pending == input[got..] &&
    Flatten(blocks) + curr.bytes[..count] == input[..got] &&
    |fd.chunks| >= c0 && Flatten(fd.chunks[c0..]) == input[..got]
  }

  /** The state at the top of read_pipe's loop: as above, with room left in the
      current link. */
  ghost predicate Filling(fd: Stream, head: Link, curr: Link, count: nat, space: nat,
                          links: seq<Link>, blocks: seq<seq<byte>>,
                          input: seq<byte>, got: nat, c0: nat)
    reads fd, links, set l | l in links :: l.bytes
  {
    Holding(fd, head, curr, count, space, links, blocks, input, got, c0) && space > 0
  }

  /** After a read that kept some bytes: when the current link is full, close it and
      chain a fresh one, so that there is room again. */
  method MakeRoom(fd: Stream, head: Link, curr: Link, count: nat, space: nat,
                  ghost links: seq<Link>, ghost blocks: seq<seq<byte>>,
                  ghost input: seq<byte>, ghost got: nat, ghost c0: nat)
    returns (curr': Link, count': nat, space': nat, ghost links': seq<Link>, ghost blocks': seq<seq<byte>>)
    requires Holding(fd, head, curr, count, space, links, blocks, input, got, c0)
    modifies curr
    ensures Filling(fd, head, curr', count', space', links', blocks', input, got, c0)
    ensures curr' == curr || (fresh(curr') && fresh(curr'.bytes))
  {
    curr', count', space', links', blocks' := curr, count, space, links, blocks;
    if space == 0 {
      assert curr.bytes[..] == curr.bytes[..count];
      curr', links', blocks' := Grow(head, curr, links, blocks);
      count', space' := 0, LinkSize;
    }
  }

  /** One turn of read_pipe's loop: a read, then either the end of the loop (the read
      returned 0), or the bytes kept and, when the link is full, a fresh one chained. */
  method Step(fd: Stream, head: Link, curr: Link, count: nat, space: nat,
              ghost links: seq<Link>, ghost blocks: seq<seq<byte>>,
              ghost input: seq<byte>, ghost got: nat, ghost c0: nat)
    returns (done: bool, curr': Link, count': nat, space': nat,
             ghost links': seq<Link>, ghost blocks': seq<seq<byte>>, ghost got': nat)
    requires Filling(fd, head, curr, count, space, links, blocks, input, got, c0)
    modifies fd`pending, fd`chunks, curr, curr.bytes
    ensures Filling(fd, head, curr', count', space', links', blocks', input, got', c0)
    ensures curr' == curr || (fresh(curr') && fresh(curr'.bytes))
    ensures done ==> got' == |input| && |fd.chunks| > c0 && fd.chunks[|fd.chunks| - 1] == []
    ensures !done ==> got < got'
  {
    var n := Fill(fd, head, curr, count, space, links, blocks, input, got, c0);
    curr', count', space', links', blocks', got' := curr, count + n, space - n, links, blocks, got + n;
    done := n == 0;
    if !done {
      curr', count', space', links', blocks' := MakeRoom(fd, head, curr, count', space', links, blocks, input, got', c0);
    }
  }

  /** read_pipe's loop: read into the current link until read returns 0, chaining a
      fresh link each time one fills up. */
  method FillChain(fd: Stream)
    returns (head: Link, curr: Link, count: nat, ghost links: seq<Link>, ghost blocks: seq<seq<byte>>)
    modifies fd`pending, fd`chunks
    ensures Building(head, links, blocks) && curr == links[|links| - 1] && fresh(curr)
    ensures count < LinkSize && fd.pending == []
    ensures Flatten(blocks) + curr.bytes[..count] == old(fd.pending)
    ensures |fd.chunks| > |old(fd.chunks)| && fd.chunks[|fd.chunks| - 1] == []
    ensures Flatten(fd.chunks[|old(fd.chunks)|..]) == old(fd.pending)
  {
    ghost var input := fd.pending;
    ghost var c0 := |fd.chunks|;
    ghost var got: nat := 0;
    blocks := [];
    head := new Link();
    curr := head;
    links := [head];
    count := 0;
    var space: nat := LinkSize;
    while true
      invariant Filling(fd, head, curr, count, space, links, blocks, input, got, c0)
      invariant fresh(curr) && fresh(curr.bytes)
      decreases |input| - got
    {
      var done;
      done, curr, count, space, links, blocks, got := Step(fd, head, curr, count, space, links, blocks, input, got, c0);
      if done {
        break;
      }
    }
    FilledAll(fd, head, curr, count, space, links, blocks, input, got, c0);
  }

  /** Once the loop has read the whole stream, the chain and the read log hold all of it. */
  lemma FilledAll(fd: Stream, head: Link, curr: Link, count: nat, space: nat,
                  links: seq<Link>, blocks: seq<seq<byte>>,
                  input: seq<byte>, got: nat, c0: nat)
    requires Filling(fd, head, curr, count, space, links, blocks, input, got, c0) && got == |input|
    ensures Building(head, links, blocks) && curr == links[|links| - 1]
    ensures count < LinkSize && fd.pending == []
    ensures Flatten(blocks) + curr.bytes[..count] == input
    ensures Flatten(fd.chunks[c0..]) == input
  {
    assert input[..got] == input;
  }

  /** read_pipe: drain `fd` to end of stream into a fresh chain. */
  method ReadPipe(fd: Stream) returns (head: Link, ghost links: seq<Link>)
    modifies fd`pending, fd`chunks
    ensures IsChain(head, links)
    ensures ChainBytes(links) == old(fd.pending) && fd.pending == []
    ensures Lens(links) == ShapeOf(|old(fd.pending)|)
    ensures |fd.chunks| > |old(fd.chunks)| && fd.chunks[|fd.chunks| - 1] == []
    ensures Flatten(fd.chunks[|old(fd.chunks)|..]) == ChainBytes(links)
  {
    var curr, count;
    ghost var blocks;
    head, curr, count, links, blocks := FillChain(fd);
    Close(head, curr, count, links, blocks);
  }

  /** total_bytes: the sum of the fill levels along the chain, which is the number of
      bytes the chain holds. */
  method TotalBytes(head: Link, ghost links: seq<Link>) returns (total: nat)
    requires IsChain(head, links)
    ensures total == Sum(Lens(links))
    ensures total == |ChainBytes(links)|
  {
    var curr: Link? := head;
    total := 0;
    ghost var i := 0;
    while curr != null
      invariant 0 <= i <= |links|
      invariant curr == (if i < |links| then links[i] else null)
      invariant total == Sum(Lens(links[..i]))
      decreases |links| - i
    {
      assert links[..i + 1][..i] == links[..i];
      total := total + curr.len;
      curr := curr.next;
      i := i + 1;
    }
    assert links[..i] == links;
    ChainBytesLength(links);
  }

  /** free_buffer_chain: walks the chain from `head` to the end, releasing each link;
      the links it releases, in order, are exactly the links of the chain. */
  method FreeBufferChain(head: Link, ghost links: seq<Link>) returns (freed: seq<Link>)
    requires IsChain(head, links)
    ensures freed == links
  {
    var curr: Link? := head;
    freed := [];
    while curr != null
      invariant |freed| <= |links| && freed == links[..|freed|]
      invariant curr == (if |freed| < |links| then links[|freed|] else null)
      decreases |links| - |freed|
    {
      var next := curr.next;
      freed := freed + [curr];
      curr := next;
    }
  }

  /** The filled part of each link, in chain order. */
  ghost function Parts(links: seq<Link>): (r: seq<seq<byte>>)
    requires Sized(links)
    reads links, set l | l in links :: l.bytes
    ensures |r| == |links|
    ensures forall i :: 0 <= i < |links| ==> r[i] == links[i].bytes[..links[i].len]
  {
    if links == [] then []
    else
      var last := links[|links| - 1];
      Parts(links[..|links| - 1]) + [last.bytes[..last.len]]
  }

  /** The chain's bytes are its links' filled parts, one after another. */
  lemma {:induction false} ChainBytesParts(links: seq<Link>)
    requires Sized(links)
    ensures ChainBytes(links) == Flatten(Parts(links))
  {
    if links != [] {
      ChainBytesParts(links[..|links| - 1]);
      assert Parts(links)[..|links| - 1] == Parts(links[..|links| - 1]);
    }
  }

  /** The writing loop of create_child for one chain: the buffers it hands to write(2),
      one per link, each link's filled part in chain order. */
  method WriteChain(head: Link, ghost links: seq<Link>, ghost parts: seq<seq<byte>>)
    returns (calls: seq<seq<byte>>)
    requires IsChain(head, links) && parts == Parts(links)
    ensures calls == parts
  {
    var curr: Link? := head;
    calls := [];
    while curr != null
      invariant |calls| <= |links|
      invariant curr == (if |calls| < |links| then links[|calls|] else null)
      invariant calls == parts[..|calls|]
      decreases |links| - |calls|
    {
      calls := calls + [curr.bytes[..curr.len]];
      curr := curr.next;
    }
    assert parts[..|calls|] == parts;
  }
}
