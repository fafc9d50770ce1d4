/** Path ORAM: a client and a server that together answer like a plain memory. */
module PathOram {
  import opened Bytes
  import opened HeapTree
  import opened PathState
  import opened Placement
  import opened Ram
  import opened Results

  class PathORAMServer {
    const treeHeight: nat
    var tree: seq<Bucket>
    var readPathRequests: nat
    var writePathRequests: nat

    constructor (treeHeight: nat)
      ensures this.treeHeight == treeHeight && tree == []
      ensures readPathRequests == 0 && writePathRequests == 0
    {
      this.treeHeight := treeHeight;
      tree := [];
      readPathRequests, writePathRequests := 0, 0;
    }

    /** Pads a bucket to full capacity with dummies of arbitrary content. */
    method FillBucketWithDummies(bucket: Bucket) returns (full: Bucket)
      requires |bucket| <= BUCKET_SIZE
      ensures |full| == BUCKET_SIZE && bucket <= full
      ensures Reals(full) == Reals(bucket)
    {
      full := bucket;
      while |full| < BUCKET_SIZE
        invariant |bucket| <= |full| <= BUCKET_SIZE && bucket <= full
        invariant Reals(full) == Reals(bucket)
      {
        assert |Zeros(BLOCK_SIZE)| == BLOCK_SIZE;
        var noise: seq<byte> :| |noise| == BLOCK_SIZE;
        var dummy := Block(DUMMY, noise);
        assert (full + [dummy])[..|full|] == full;
        full := full + [dummy];
      }
    }

    /** Builds the tree: one real block per leaf bucket, in order. */
    method Init(initialBlocks: seq<Block>) returns (r: Result<()>)
      modifies this`tree
      ensures r.Success? <==> |initialBlocks| <= NumLeaves(treeHeight)
      ensures r.Success? ==> Initial(treeHeight, tree, initialBlocks)
      ensures r.Failure? ==> r.error == InvalidArgument && tree == old(tree)
    {
      if |initialBlocks| > NumLeaves(treeHeight) { return Failure(InvalidArgument); }
      tree := [];
      var leafOffset := Pow2(treeHeight) - 1;
      for n := 0 to NumNodes(treeHeight)
        invariant |tree| == n
        invariant forall m :: 0 <= m < n ==>
                    |tree[m]| == BUCKET_SIZE && Reals(tree[m]) == Reals(InitialBucket(treeHeight, initialBlocks, m))
      {
        var bucket: Bucket := [];
        if n >= leafOffset {
          var leaf := n - leafOffset;
          if leaf < |initialBlocks| {
            bucket := bucket + [initialBlocks[leaf]];
          }
        }
        assert bucket == InitialBucket(treeHeight, initialBlocks, n);
        bucket := FillBucketWithDummies(bucket);
        tree := tree + [bucket];
      }
      return Success(());
    }

    method ReadBucketFromDisk(n: nat) returns (r: Result<Bucket>)
      ensures r == if n < |tree| then Success(tree[n]) else Failure(OutOfRange)
    {
      if n >= |tree| { return Failure(OutOfRange); }
      return Success(tree[n]);
    }

    method WriteBucketToDisk(n: nat, bucket: Bucket) returns (r: Result<()>)
      modifies this`tree
      ensures r.Success? <==> n < old(|tree|) && |bucket| <= BUCKET_SIZE
      ensures tree == if r.Success? then old(tree)[n := bucket] else old(tree)
    {
      if n >= |tree| { return Failure(OutOfRange); }
      if |bucket| > BUCKET_SIZE { return Failure(InvalidArgument); }
      tree := tree[n := bucket];
      return Success(());
    }

    method HandleReadPath(indices: seq<nat>) returns (r: Result<seq<Bucket>>)
      modifies this`readPathRequests
      ensures r.Success? <==> |tree| == NumNodes(treeHeight) && |indices| == treeHeight + 1
                              && forall i :: 0 <= i < |indices| ==> indices[i] < |tree|
      ensures r.Success? ==> |r.value| == |indices|
                             && forall i :: 0 <= i < |indices| ==> indices[i] < |tree| && r.value[i] == tree[indices[i]]
      ensures r.Success? ==> readPathRequests == old(readPathRequests) + 1
    {
      if |tree| != NumNodes(treeHeight) { return Failure(RuntimeError); }
      if |indices| != treeHeight + 1 { return Failure(InvalidArgument); }
      readPathRequests := readPathRequests + 1;
      var buckets: seq<Bucket> := [];
      for i := 0 to |indices|
        invariant |buckets| == i && readPathRequests == old(readPathRequests) + 1
        invariant forall j :: 0 <= j < i ==> indices[j] < |tree| && buckets[j] == tree[indices[j]]
      {
        var bucket :- ReadBucketFromDisk(indices[i]);
        buckets := buckets + [bucket];
      }
      return Success(buckets);
    }

    /** Replaces the buckets of one path and nothing else. What a bucket holds beyond its capacity is dropped. */
    method HandleWritePath(indices: seq<nat>, buckets: seq<Bucket>) returns (r: Result<()>)
      requires |buckets| == |indices|
      modifies this`tree, this`writePathRequests
      ensures |tree| == old(|tree|)
      ensures r.Success? <==> |tree| == NumNodes(treeHeight) && |indices| == treeHeight + 1
                              && forall i :: 0 <= i < |indices| ==> indices[i] < |tree|
      ensures r.Success? && PathInTree(indices, |tree|) ==>
                && (forall i :: 0 <= i < |indices| ==> tree[indices[i]] == UpTo(buckets[i], BUCKET_SIZE))
                && writePathRequests == old(writePathRequests) + 1
      ensures forall n :: 0 <= n < |tree| && n !in indices ==> tree[n] == old(tree[n])
    {
      if |tree| != NumNodes(treeHeight) { return Failure(RuntimeError); }
      if |indices| != treeHeight + 1 { return Failure(InvalidArgument); }
      for i := 0 to |indices|
        invariant |tree| == old(|tree|) && writePathRequests == old(writePathRequests)
        invariant forall j :: 0 <= j < i ==> indices[j] < |tree|
        invariant PathInTree(indices, |tree|) ==>
                    forall j :: 0 <= j < i ==> tree[indices[j]] == UpTo(buckets[j], BUCKET_SIZE)
        invariant forall n :: 0 <= n < |tree| && n !in indices ==> tree[n] == old(tree[n])
      {
        var _ :- WriteBucketToDisk(indices[i], UpTo(buckets[i], BUCKET_SIZE));
      }
      writePathRequests := writePathRequests + 1;
      return Success(());
    }
  }

  method CanPlaceInBucket(blockLeaf: nat, targetLeaf: nat, level: nat) returns (can: bool)
    ensures can <==> level >= Meeting(blockLeaf, targetLeaf)
  {
    MeetingAgrees(blockLeaf, targetLeaf, level);
    can := Shr(blockLeaf, level) == Shr(targetLeaf, level);
  }

  /** The bottom-up path visits the nodes of the top-down path. */
  ghost method BottomUp(height: nat, leaf: nat, path: seq<nat>) returns (nodes: set<nat>)
    requires leaf < NumLeaves(height) && |path| == height + 1
    requires forall i :: 0 <= i <= height ==> path[i] == PathNodes(height, leaf)[height - i]
    ensures nodes == NodeSet(path) == NodeSet(PathNodes(height, leaf))
    ensures PathInTree(path, NumNodes(height))
  {
    nodes := NodeSet(path);
    var down := PathNodes(height, leaf);
    forall n | n in down
      ensures n in path
    {
      var l :| 0 <= l <= height && down[l] == n;
      assert path[height - l] == n;
    }
    forall i | 0 <= i <= height
      ensures path[i] < NumNodes(height)
    {
      PathMembers(height, leaf, path[i]);
    }
    PathDistinct(height, leaf);
  }

  /** The i-th initial block is mapped to leaf i, where Init puts it. */
  ghost predicate Matching(positions: seq<nat>, height: nat, blocks: seq<Block>)
  {
    && LeavesInRange(positions, height) && Distinct(blocks)
    && forall i :: 0 <= i < |blocks| ==> blocks[i].id < |positions| && positions[blocks[i].id] == i
  }

  class PathORAMClient {
    const treeHeight: nat
    const numBlocks: nat
    const server: PathORAMServer
    var stash: seq<Block>
    var positionMap: seq<nat>

    ghost var mem: Memory
    ghost var loc: map<nat, int>

    ghost predicate Configured()
      reads this, server
    {
      && server.treeHeight == treeHeight && |server.tree| == NumNodes(treeHeight)
      && (forall n :: 0 <= n < |server.tree| ==> |server.tree[n]| == BUCKET_SIZE)
      && |positionMap| == numBlocks <= DUMMY && LeavesInRange(positionMap, treeHeight)
    }

    /** Between accesses: client and server together hold exactly the memory. */
    ghost predicate Valid()
      reads this, server
    {
      Configured() && Placed(treeHeight, stash, server.tree, positionMap, mem, loc, {})
    }

    /** Any position map will do if the server has been initialised with an empty tree; otherwise
        InitializePositionMap has to follow. */
    constructor (server: PathORAMServer, numBlocks: nat)
      requires numBlocks <= DUMMY
      ensures Initial(server.treeHeight, server.tree, []) ==> Valid()
      ensures mem == map[] && stash == [] && |positionMap| == numBlocks && LeavesInRange(positionMap, treeHeight)
      ensures this.server == server && this.treeHeight == server.treeHeight && this.numBlocks == numBlocks
    {
      this.treeHeight, this.numBlocks, this.server := server.treeHeight, numBlocks, server;
      var positions: seq<nat> := [];
      for i := 0 to numBlocks
        invariant |positions| == i && LeavesInRange(positions, server.treeHeight)
      {
        var leaf := GetRandomLeaf(server.treeHeight);
        positions := positions + [leaf];
      }
      positionMap, stash := positions, [];
      mem, loc := ContentsOf([]), LeavesOf(server.treeHeight, []);
      if Initial(server.treeHeight, server.tree, []) {
        InitialPlaced(server.treeHeight, server.tree, positions, []);
      }
    }

    static method GetRandomLeaf(height: nat) returns (leaf: nat)
      ensures leaf < NumLeaves(height)
    {
      leaf :| leaf < NumLeaves(height);
    }

    /** Before any access, a position map that matches the blocks given to the server's Init. */
    method InitializePositionMap(initialPositions: seq<nat>, ghost blocks: seq<Block>) returns (r: Result<()>)
      requires server.treeHeight == treeHeight && numBlocks <= DUMMY && stash == []
      requires Initial(treeHeight, server.tree, blocks)
      requires Matching(initialPositions, treeHeight, blocks)
      modifies this
      ensures r.Success? <==> |initialPositions| == numBlocks
      ensures r.Success? ==> Valid() && mem == ContentsOf(blocks) && positionMap == initialPositions && stash == []
      ensures r.Failure? ==> r.error == InvalidArgument && unchanged(this)
    {
      if |initialPositions| != numBlocks { return Failure(InvalidArgument); }
      positionMap := initialPositions;
      mem, loc := ContentsOf(blocks), LeavesOf(treeHeight, blocks);
      InitialPlaced(treeHeight, server.tree, positionMap, blocks);
      return Success(());
    }

    /** Copies every real block of the path into the stash. */
    method ReadPath(leaf: nat, ghost pos: seq<nat>)
      requires Configured() && leaf < NumLeaves(treeHeight)
      requires Placed(treeHeight, stash, server.tree, pos, mem, loc, {})
      modifies this`stash, this`loc, server`readPathRequests
      ensures Placed(treeHeight, stash, server.tree, pos, mem, loc, NodeSet(PathNodes(treeHeight, leaf)))
      ensures PathInTree(UpPath(treeHeight, leaf), |server.tree|)
      ensures stash == old(stash) + Along(server.tree, UpPath(treeHeight, leaf))
      ensures server.readPathRequests == old(server.readPathRequests) + 1
    {
      hide Placed, Along, Reals;
      var path := GetPathBottomUp(treeHeight, leaf);
      ghost var nodes := BottomUp(treeHeight, leaf, path);
      assert path == UpPath(treeHeight, leaf);
      var response := server.HandleReadPath(path);
      assert response.Success?;
      Absorb(path, response.value, pos);
    }

    method Absorb(path: seq<nat>, pathBuckets: seq<Bucket>, ghost pos: seq<nat>)
      requires |path| == |pathBuckets| && PathInTree(path, |server.tree|)
      requires forall i :: 0 <= i < |path| ==> pathBuckets[i] == server.tree[path[i]]
      requires Placed(treeHeight, stash, server.tree, pos, mem, loc, {})
      modifies this`stash, this`loc
      ensures Placed(treeHeight, stash, server.tree, pos, mem, loc, NodeSet(path))
      ensures stash == old(stash) + Along(server.tree, path)
    {
      hide Placed, Reals, Along, NodeSet;
      AlongNothing(server.tree, path);
      for i := 0 to |pathBuckets|
        invariant Placed(treeHeight, stash, server.tree, pos, mem, loc, NodeSet(path[..i]))
        invariant stash == old(stash) + Along(server.tree, path[..i])
      {
        AlongNext(server.tree, path, i);
        AbsorbBucket(treeHeight, stash, server.tree, pos, mem, loc, NodeSet(path[..i]), path[i]);
        stash := AddReals(stash, pathBuckets[i]);
        loc := Absorbed(loc, path[i]);
      }
      assert path[..|path|] == path;
    }

    method FindBlockInStash(id: nat) returns (found: Option<Block>)
      ensures found.Some? ==> found.value in stash && found.value.id == id
      ensures found.None? ==> forall i :: 0 <= i < |stash| ==> stash[i].id != id
    {
      for i := 0 to |stash|
        invariant forall j :: 0 <= j < i ==> stash[j].id != id
      {
        if stash[i].id == id { return Some(stash[i]); }
      }
      return None;
    }

    method RemoveBlockFromStash(id: nat)
      modifies this`stash
      ensures stash == Remove(old(stash), id)
    {
      var all := stash;
      stash := [];
      for i := 0 to |all|
        invariant stash == Remove(all[..i], id)
      {
        assert all[..i + 1][..i] == all[..i];
        if all[i].id != id {
          stash := stash + [all[i]];
        }
      }
      assert all[..|all|] == all;
    }

    /** Answers a request from the stash, into which the whole path has been read. */
    method ServeFromStash(op: Op, addr: nat, data: seq<byte>, ghost stale: set<nat>) returns (result: seq<byte>)
      requires Placed(treeHeight, stash, server.tree, positionMap, mem, loc, stale)
      requires addr in loc ==> loc[addr] == STASH
      requires addr < |positionMap| && addr != DUMMY
      modifies this`stash, this`mem, this`loc
      ensures Placed(treeHeight, stash, server.tree, positionMap, mem, loc, stale)
      ensures result == Answer(old(mem), Request(op, addr, data), BLOCK_SIZE)
      ensures mem == Store(old(mem), Request(op, addr, data))
      ensures stash == Applied(old(stash), Request(op, addr, data))
    {
      hide Reals, Located;
      var found := FindBlockInStash(addr);
      FoundInMemory(treeHeight, stash, server.tree, positionMap, mem, loc, stale, addr, found);
      if op == READ {
        if found.Some? {
          result := found.value.data;
        } else {
          result := Zeros(BLOCK_SIZE);
        }
      } else {
        StoreInStash(treeHeight, stash, server.tree, positionMap, mem, loc, stale, addr, data);
        if found.Some? {
          RemoveBlockFromStash(addr);
        } else {
          RemoveAbsent(stash, addr);
        }
        stash := stash + [Block(addr, data)];
        mem, loc := mem[addr := data], loc[addr := STASH];
        result := data;
      }
    }

    /** Puts one block into the deepest bucket of the path that is legal and has room. */
    method PlaceBlock(block: Block, blockLeaf: nat, leaf: nat, pathBuckets: array<Bucket>, ghost placedSoFar: seq<nat>)
      returns (placed: bool)
      requires Meeting(blockLeaf, leaf) <= pathBuckets.Length
      requires forall i :: 0 <= i < pathBuckets.Length ==> |pathBuckets[i]| == CountEq(placedSoFar, i)
      modifies pathBuckets
      ensures var room := FirstRoom(placedSoFar, Meeting(blockLeaf, leaf), pathBuckets.Length, BUCKET_SIZE);
              && placed == (room < pathBuckets.Length)
              && pathBuckets[..] == if placed then old(pathBuckets[..])[room := old(pathBuckets[..])[room] + [block]]
                                    else old(pathBuckets[..])
    {
      placed := false;
      var i := 0;
      ghost var depth := Meeting(blockLeaf, leaf);
      while i < pathBuckets.Length && !placed
        invariant 0 <= i <= pathBuckets.Length
        invariant forall j :: 0 <= j < i && !(placed && j == i - 1) ==>
                    j < depth || CountEq(placedSoFar, j) >= BUCKET_SIZE
        invariant placed ==> i > 0 && depth <= i - 1 && CountEq(placedSoFar, i - 1) < BUCKET_SIZE
        invariant pathBuckets[..] == if placed then old(pathBuckets[..])[i - 1 := old(pathBuckets[..])[i - 1] + [block]]
                                     else old(pathBuckets[..])
        decreases pathBuckets.Length - i
      {
        if |pathBuckets[i]| < BUCKET_SIZE {
          var can := CanPlaceInBucket(blockLeaf, leaf, i);
          if can {
            pathBuckets[i] := pathBuckets[i] + [block];
            placed := true;
          }
        }
        i := i + 1;
      }
      FirstRoomIs(placedSoFar, depth, pathBuckets.Length, BUCKET_SIZE, if placed then i - 1 else i);
    }

    /** Greedy write-back: block by block, each as deep as the path and the room allow. */
    method EvictBlocksToPath(leaf: nat, pathBuckets: array<Bucket>)
      requires leaf < NumLeaves(treeHeight) && LeavesInRange(positionMap, treeHeight)
      requires forall b :: b in stash ==> b.id < |positionMap|
      requires pathBuckets.Length == treeHeight + 1
      requires forall i :: 0 <= i < pathBuckets.Length ==> pathBuckets[i] == []
      modifies this`stash, pathBuckets
      ensures Evicted(old(stash), positionMap, leaf, treeHeight, pathBuckets[..], stash)
    {
      hide *;
      var stashCopy := stash;
      EvictingStart(stashCopy, positionMap, leaf, treeHeight, pathBuckets[..]);
      stash := [];
      ghost var fit: seq<nat> := [];
      for p := 0 to |stashCopy|
        invariant Evicting(stashCopy, positionMap, leaf, treeHeight, p, fit, pathBuckets[..], stash)
      {
        var block := stashCopy[p];
        EvictingHere(stashCopy, positionMap, leaf, treeHeight, p, fit, pathBuckets[..], stash);
        var blockLeaf := positionMap[block.id];
        ghost var room := FirstRoom(fit, Meeting(blockLeaf, leaf), treeHeight + 1, BUCKET_SIZE);
        EvictingStep(stashCopy, positionMap, leaf, treeHeight, p, fit, pathBuckets[..], stash, room);
        ghost var before, rest := pathBuckets[..], stash;
        var placed := PlaceBlock(block, blockLeaf, leaf, pathBuckets, fit);
        assert pathBuckets[..] == (if placed then before[room := before[room] + [block]] else before) && stash == rest;
        fit := fit + [room];
        if !placed {
          stash := stash + [block];
        }
      }
      EvictingEnd(stashCopy, positionMap, leaf, treeHeight, fit, pathBuckets[..], stash);
    }

    /** Pads every bucket with zero blocks under the dummy id. */
    static method PadBuckets(pathBuckets: array<Bucket>)
      requires forall i :: 0 <= i < pathBuckets.Length ==> |pathBuckets[i]| <= BUCKET_SIZE
      modifies pathBuckets
      ensures forall i :: 0 <= i < pathBuckets.Length ==> |pathBuckets[i]| == BUCKET_SIZE
      ensures forall i :: 0 <= i < pathBuckets.Length ==> Reals(pathBuckets[i]) == Reals(old(pathBuckets[i]))
    {
      for i := 0 to pathBuckets.Length
        invariant forall j :: 0 <= j < i ==>
                    |pathBuckets[j]| == BUCKET_SIZE && Reals(pathBuckets[j]) == Reals(old(pathBuckets[j]))
        invariant forall j :: i <= j < pathBuckets.Length ==> pathBuckets[j] == old(pathBuckets[j])
      {
        pathBuckets[i] := PadBucket(pathBuckets[i]);
      }
    }

    static method PadBucket(bucket: Bucket) returns (full: Bucket)
      requires |bucket| <= BUCKET_SIZE
      ensures |full| == BUCKET_SIZE && Reals(full) == Reals(bucket) && bucket <= full
      ensures forall i :: |bucket| <= i < |full| ==> full[i] == Block(DUMMY, Zeros(BLOCK_SIZE))
    {
      full := bucket;
      while |full| < BUCKET_SIZE
        invariant |full| <= BUCKET_SIZE && Reals(full) == Reals(bucket) && bucket <= full
        invariant forall i :: |bucket| <= i < |full| ==> full[i] == Block(DUMMY, Zeros(BLOCK_SIZE))
      {
        var dummy := Block(DUMMY, Zeros(BLOCK_SIZE));
        assert (full + [dummy])[..|full|] == full;
        full := full + [dummy];
      }
    }

    /** Writes the stash back to the path that has just been read. */
    method WritePath(leaf: nat)
      requires Configured() && leaf < NumLeaves(treeHeight)
      requires Placed(treeHeight, stash, server.tree, positionMap, mem, loc, NodeSet(PathNodes(treeHeight, leaf)))
      modifies this`stash, this`loc, server`tree, server`writePathRequests
      ensures Valid()
      ensures server.writePathRequests == old(server.writePathRequests) + 1
      ensures forall n :: 0 <= n < |server.tree| && n !in PathNodes(treeHeight, leaf) ==>
                server.tree[n] == old(server.tree[n])
      ensures OptimalRest(old(stash), positionMap, leaf, treeHeight, stash)
      ensures LeastRest(old(stash), positionMap, leaf, treeHeight, stash)
      ensures Settled(treeHeight, server.tree, stash, positionMap, leaf)
    {
      hide Reals, Placed, Splits, OptimalRest, LeastRest, Settled, Evicted, Written, NodeAt, OnPath, NodeSet;
      var path := GetPathBottomUp(treeHeight, leaf);
      ghost var nodes := BottomUp(treeHeight, leaf, path);
      assert path == UpPath(treeHeight, leaf);
      var pathBuckets := new Bucket[|path|](_ => []);
      ghost var before := stash;
      StashInRange(treeHeight, stash, server.tree, positionMap, mem, loc, nodes);
      EvictBlocksToPath(leaf, pathBuckets);
      ghost var buckets := pathBuckets[..];
      EvictedFits(treeHeight, before, server.tree, positionMap, mem, loc, nodes, leaf, buckets, stash);
      PadBuckets(pathBuckets);
      ghost var tree := server.tree;
      var response := server.HandleWritePath(path, pathBuckets[..]);
      assert response.Success?;
      assert Rewritten(tree, server.tree, path, buckets);
      EvictedLeast(before, positionMap, leaf, treeHeight, buckets, stash);
      WrittenSettled(treeHeight, before, positionMap, leaf, buckets, stash, tree, server.tree);
      WriteBack(treeHeight, before, stash, tree, server.tree, positionMap, mem, loc, path, buckets);
      loc := Written(loc, mem, path, buckets);
    }

    /** One access: reads the path of the old leaf, serves the request, writes the same path back. */
    method Access(op: Op, addr: nat, data: seq<byte>) returns (result: seq<byte>)
      requires Valid() && addr < numBlocks
      modifies this, server
      ensures Valid()
      ensures result == Answer(old(mem), Request(op, addr, data), BLOCK_SIZE)
      ensures mem == Store(old(mem), Request(op, addr, data))
      ensures forall a :: 0 <= a < numBlocks && a != addr ==> positionMap[a] == old(positionMap[a])
      ensures server.readPathRequests == old(server.readPathRequests) + 1
      ensures server.writePathRequests == old(server.writePathRequests) + 1
      ensures forall n :: 0 <= n < |server.tree| && n !in PathNodes(treeHeight, old(positionMap[addr])) ==>
                server.tree[n] == old(server.tree[n])
      ensures WrittenBack(treeHeight, old(Now()), Now(), Request(op, addr, data))
    {
      hide Placed, Reals, Along, Applied, Settled, LeastRest, OptimalRest, UpPath, PathNodes, NodeSet, Answer, Store,
        WrittenBack, OnPath;
      ghost var before := Now();
      var oldLeaf := positionMap[addr];
      var newLeaf := GetRandomLeaf(treeHeight);
      ghost var oldMap := positionMap;
      positionMap := positionMap[addr := newLeaf];
      ReadPath(oldLeaf, oldMap);
      ghost var stale := NodeSet(PathNodes(treeHeight, oldLeaf));
      RemapRead(treeHeight, stash, server.tree, oldMap, mem, loc, stale, addr, newLeaf);
      result := ServeFromStash(op, addr, data, stale);
      WritePath(oldLeaf);
      IsWrittenBack(treeHeight, before, Now(), Request(op, addr, data));
    }

    ghost function Now(): Snapshot
      reads this`stash, this`positionMap, server`tree
    {
      Snapshot(stash, server.tree, positionMap)
    }

    method Read(addr: nat) returns (result: seq<byte>)
      requires Valid() && addr < numBlocks
      modifies this, server
      ensures Valid() && mem == old(mem) && result == Load(mem, addr, BLOCK_SIZE)
      ensures WrittenBack(treeHeight, old(Now()), Now(), Request(READ, addr, []))
    {
      hide Valid, WrittenBack;
      result := Access(READ, addr, []);
    }

    method Write(addr: nat, data: seq<byte>)
      requires Valid() && addr < numBlocks
      modifies this, server
      ensures Valid() && mem == old(mem)[addr := data]
      ensures WrittenBack(treeHeight, old(Now()), Now(), Request(WRITE, addr, data))
    {
      hide Valid, WrittenBack;
      var _ := Access(WRITE, addr, data);
    }

    static method AddReals(stash: seq<Block>, bucket: Bucket) returns (all: seq<Block>)
      ensures all == stash + Reals(bucket)
    {
      all := stash;
      for j := 0 to |bucket|
        invariant all == stash + Reals(bucket[..j])
      {
        assert bucket[..j + 1][..j] == bucket[..j];
        if bucket[j].id != DUMMY {
          all := all + [bucket[j]];
        }
      }
      assert bucket[..|bucket|] == bucket;
    }
  }

  /** A whole run: every answer is the one a plain memory gives, and every access writes its path back as it
      should. */
  method RunWorkload(client: PathORAMClient, requests: seq<Request>)
    returns (answers: seq<seq<byte>>, ghost states: seq<Snapshot>)
    requires client.Valid()
    requires forall i :: 0 <= i < |requests| ==> requests[i].addr < client.numBlocks
    modifies client, client.server
    ensures client.Valid() && client.mem == After(old(client.mem), requests)
    ensures answers == Answers(old(client.mem), requests, BLOCK_SIZE)
    ensures |states| == |requests| + 1 && states[0] == old(client.Now()) && states[|requests|] == client.Now()
    ensures AllWrittenBack(client.treeHeight, states, requests)
  {
    hide PathORAMClient.Valid, WrittenBack;
    answers, states := [], [client.Now()];
    for i := 0 to |requests|
      invariant client.Valid() && client.mem == After(old(client.mem), requests[..i])
      invariant answers == Answers(old(client.mem), requests[..i], BLOCK_SIZE)
      invariant |states| == i + 1 && states[0] == old(client.Now()) && states[i] == client.Now()
      invariant AllWrittenBack(client.treeHeight, states, requests)
    {
      var r := requests[i];
      assert requests[..i + 1][..i] == requests[..i];
      var answer := client.Access(r.op, r.addr, r.data);
      answers := answers + [answer];
      states := states + [client.Now()];
    }
    assert requests[..|requests|] == requests;
  }

  ghost predicate AllWrittenBack(height: nat, states: seq<Snapshot>, requests: seq<Request>)
  {
    && |states| <= |requests| + 1
    && forall i: nat :: i + 1 < |states| ==> WrittenBack(height, states[i], states[i + 1], requests[i])
  }

  /** From the initial blocks to the end of a run: with a position map that matches the blocks, every answer is
      the one a plain memory with these blocks gives, and every access writes its path back as it should,
      starting with an empty stash. Only too many blocks or a map of the wrong size are refused. */
  method RunFromBlocks(treeHeight: nat, numBlocks: nat, blocks: seq<Block>, positions: seq<nat>, requests: seq<Request>)
    returns (r: Result<seq<seq<byte>>>, ghost states: seq<Snapshot>)
    requires numBlocks <= DUMMY && forall i :: 0 <= i < |requests| ==> requests[i].addr < numBlocks
    requires |blocks| <= NumLeaves(treeHeight) ==> Matching(positions, treeHeight, blocks)
    ensures r.Success? <==> |blocks| <= NumLeaves(treeHeight) && |positions| == numBlocks
    ensures r.Failure? ==> r.error == InvalidArgument
    ensures r.Success? ==>
              && r.value == Answers(ContentsOf(blocks), requests, BLOCK_SIZE)
              && |states| == |requests| + 1 && AllWrittenBack(treeHeight, states, requests)
              && states[0].stash == [] && states[0].pos == positions && Initial(treeHeight, states[0].tree, blocks)
  {
    hide Initial, Matching, PathORAMClient.Valid, ContentsOf, AllWrittenBack;
    states := [];
    var server := new PathORAMServer(treeHeight);
    var initialised := server.Init(blocks);
    if initialised.Failure? { return Failure(initialised.error), states; }
    var client := new PathORAMClient(server, numBlocks);
    var mapped := client.InitializePositionMap(positions, blocks);
    if mapped.Failure? { return Failure(mapped.error), states; }
    var answers;
    answers, states := RunWorkload(client, requests);
    return Success(answers), states;
  }
}
