/**
 * `ChunkPool<T>` of ChunkPool.cs: a free list of render handles, handed out
 * from the front and recycled at the back, plus a count of handles created
 * because the list was empty.  The handle a creation produces comes from the
 * render engine, so it is a parameter here.
 */
module ChunkPool {

  datatype Pool<H> = Pool(chunkList: seq<H>, totalCreated: nat)

  /** A new pool: empty, nothing created yet. */
  function NewPool<H>(): (p: Pool<H>)
    ensures p.chunkList == [] && p.totalCreated == 0
  {
    Pool([], 0)
  }

  /**
   * `GetChunk`: on an empty pool, counts one creation and hands out the newly
   * created handle `created`; otherwise hands out the front handle and removes
   * it, without counting a creation.
   */
  function GetChunk<H>(p: Pool<H>, created: H): (r: (Pool<H>, H))
    ensures |p.chunkList| == 0 ==> r.0.chunkList == [] && r.0.totalCreated == p.totalCreated + 1 && r.1 == created
    ensures |p.chunkList| > 0 ==>
              && r.1 == p.chunkList[0]
              && [r.1] + r.0.chunkList == p.chunkList
              && r.0.totalCreated == p.totalCreated
  {
    if |p.chunkList| == 0 then
      (p.(totalCreated := p.totalCreated + 1), created)
    else
      (p.(chunkList := p.chunkList[1..]), p.chunkList[0])
  }

  /** `RecycleChunk`: the handle joins the back of the list; the creation count is unchanged. */
  function RecycleChunk<H>(p: Pool<H>, h: H): (r: Pool<H>)
    ensures r.chunkList == p.chunkList + [h] && |r.chunkList| == |p.chunkList| + 1
    ensures r.totalCreated == p.totalCreated
  {
    p.(chunkList := p.chunkList + [h])
  }

  /** Recycles the handles of `hs` in order. */
  function RecycleAll<H>(p: Pool<H>, hs: seq<H>): Pool<H>
    decreases |hs|
  {
    if hs == [] then p else RecycleAll(RecycleChunk(p, hs[0]), hs[1..])
  }

  /** Calls `GetChunk` `n` times on a pool holding at least `n` handles, collecting what it hands out. */
  function TakeN<H>(p: Pool<H>, n: nat): (r: (Pool<H>, seq<H>))
    requires n <= |p.chunkList|
    decreases n
  {
    if n == 0 then (p, [])
    else
      var (p1, h) := GetChunk(p, p.chunkList[0]);
      var (p2, hs) := TakeN(p1, n - 1);
      (p2, [h] + hs)
  }

  /** Recycling appends the whole sequence and creates nothing. */
  lemma {:induction false} RecycleAllAppends<H>(p: Pool<H>, hs: seq<H>)
    ensures RecycleAll(p, hs).chunkList == p.chunkList + hs
    ensures RecycleAll(p, hs).totalCreated == p.totalCreated
    decreases |hs|
  {
    if hs != [] {
      RecycleAllAppends(RecycleChunk(p, hs[0]), hs[1..]);
      assert p.chunkList + [hs[0]] + hs[1..] == p.chunkList + hs;
    }
  }

  /** Taking `n` handles yields the first `n` of the list in order and leaves the rest. */
  lemma {:induction false} TakeNFront<H>(p: Pool<H>, n: nat)
    requires n <= |p.chunkList|
    ensures TakeN(p, n).1 == p.chunkList[..n]
    ensures TakeN(p, n).0.chunkList == p.chunkList[n..]
    ensures TakeN(p, n).0.totalCreated == p.totalCreated
    decreases n
  {
    if n > 0 {
      var (p1, h) := GetChunk(p, p.chunkList[0]);
      TakeNFront(p1, n - 1);
      assert p1.chunkList == p.chunkList[1..];
      assert p.chunkList[..n] == [h] + p.chunkList[1..][..n - 1];
      assert p.chunkList[n..] == p1.chunkList[n - 1..];
    }
  }

  /**
   * FIFO: handles recycled into a pool come back out in the order they were
   * recycled, after the handles already waiting, and no creation is counted.
   */
  lemma RecycledInOrder<H>(p: Pool<H>, hs: seq<H>)
    ensures var q := RecycleAll(p, hs);
            |q.chunkList| == |p.chunkList| + |hs| &&
            var (q2, out) := TakeN(q, |p.chunkList| + |hs|);
            out == p.chunkList + hs && q2.chunkList == [] && q2.totalCreated == p.totalCreated
  {
    var q := RecycleAll(p, hs);
    RecycleAllAppends(p, hs);
    TakeNFront(q, |p.chunkList| + |hs|);
  }
}
