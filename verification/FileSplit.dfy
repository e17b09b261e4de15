/**
 Cutting a file into blocks and joining them again (utils/FileSplit.h). A temporary directory
 is a map from block numbers to file contents, next to the file merge.out.
 */
module FileSplit {
  import opened Collections

  type Bytes = seq<bv8>

  const READ_SIZE := 1024

  // ----- The blocks of a file -----

  /** Blocks of b bytes, the last one with what is left. */
  function Blocks(data: Bytes, b: nat): seq<Bytes>
    requires b > 0
  {
    if data == [] then [] else [data[..Min(b, |data|)]] + Blocks(data[Min(b, |data|)..], b)
  }

  /** The number of blocks that the sender announces. */
  function BlockCount(size: nat, b: nat): nat
    requires b > 0
  {
    size / b + if size % b > 0 then 1 else 0
  }

  lemma DivideStep(size: nat, b: nat)
    requires 0 < b <= size
    ensures size / b == (size - b) / b + 1 && size % b == (size - b) % b
  {
    var q, r := (size - b) / b, (size - b) % b;
    assert size == b * (q + 1) + r;
    DivideUnique(size, b, q + 1, r);
  }

  lemma DivideUnique(size: nat, b: nat, q: nat, r: nat)
    requires r < b && size == b * q + r
    ensures size / b == q && size % b == r
  {
    var d := size / b - q;
    assert b * d == r - size % b;
  }

  /** The announced number is the number of blocks. */
  lemma {:induction false} BlocksAreCounted(data: Bytes, b: nat)
    requires b > 0
    ensures |Blocks(data, b)| == BlockCount(|data|, b)
  {
    if data != [] {
      var m := Min(b, |data|);
      BlocksAreCounted(data[m..], b);
      if m == b {
        DivideStep(|data|, b);
      } else {
        DivideUnique(|data|, b, 0, |data|);
        DivideUnique(0, b, 0, 0);
      }
    } else {
      DivideUnique(0, b, 0, 0);
    }
  }

  /** All blocks but the last are full, none is empty, and together they are the file. */
  lemma {:induction false} BlocksCoverFile(data: Bytes, b: nat)
    requires b > 0
    ensures Flatten(Blocks(data, b)) == data
    ensures forall i :: 0 <= i < |Blocks(data, b)| ==> 0 < |Blocks(data, b)[i]| <= b
    ensures forall i :: 0 <= i < |Blocks(data, b)| - 1 ==> |Blocks(data, b)[i]| == b
  {
    if data != [] {
      var m := Min(b, |data|);
      BlocksCoverFile(data[m..], b);
      assert data == data[..m] + data[m..];
    }
  }

  // ----- Joining what is there -----

  /** The least block number from i on that is missing, or n. */
  function Gap(files: map<nat, Bytes>, n: nat, i: nat): nat
    requires i <= n
    decreases n - i
  {
    if i == n || i !in files then i else Gap(files, n, i + 1)
  }

  /** The blocks from i up to j, joined. */
  function Joined(files: map<nat, Bytes>, i: nat, j: nat): Bytes
    requires i <= j && forall k :: i <= k < j ==> k in files
    decreases j - i
  {
    if i == j then [] else files[i] + Joined(files, i + 1, j)
  }

  lemma {:induction false} GapIsLeastMissing(files: map<nat, Bytes>, n: nat, i: nat)
    requires i <= n
    ensures i <= Gap(files, n, i) <= n
    ensures forall k :: i <= k < Gap(files, n, i) ==> k in files
    ensures Gap(files, n, i) < n ==> Gap(files, n, i) !in files
    decreases n - i
  {
    if i < n && i in files {
      GapIsLeastMissing(files, n, i + 1);
    }
  }

  datatype Merged = Merged(code: int, out: Bytes)

  /** The return value of merge and the contents of merge.out. */
  function MergeFiles(files: map<nat, Bytes>, n: nat): Merged {
    GapIsLeastMissing(files, n, 0);
    var g := Gap(files, n, 0);
    var out := Joined(files, 0, g);
    if g < n then Merged(g, out) else if out == [] then Merged(-1, out) else Merged(0, out)
  }

  /** The files hold exactly these blocks under the numbers from i on. */
  ghost predicate Holds(files: map<nat, Bytes>, blocks: seq<Bytes>, i: nat) {
    forall k :: i <= k < i + |blocks| ==> k in files && files[k] == blocks[k - i]
  }

  lemma HoldsAppend(files: map<nat, Bytes>, blocks: seq<Bytes>, out: Bytes)
    requires Holds(files, blocks, 0)
    ensures Holds(files[|blocks| := out], blocks + [out], 0)
  {
  }

  lemma {:induction false} JoinedBlocks(files: map<nat, Bytes>, blocks: seq<Bytes>, i: nat)
    requires Holds(files, blocks, i)
    ensures Gap(files, i + |blocks|, i) == i + |blocks|
    ensures Joined(files, i, i + |blocks|) == Flatten(blocks)
    decreases |blocks|
  {
    if blocks != [] {
      assert i in files && files[i] == blocks[0];
      assert Holds(files, blocks[1..], i + 1);
      JoinedBlocks(files, blocks[1..], i + 1);
    }
  }

  /** Merging a complete set of blocks gives the joined blocks, wherever they came from. */
  lemma MergeOfAllBlocks(files: map<nat, Bytes>, blocks: seq<Bytes>)
    requires Holds(files, blocks, 0) && Flatten(blocks) != []
    ensures MergeFiles(files, |blocks|) == Merged(0, Flatten(blocks))
  {
    JoinedBlocks(files, blocks, 0);
  }

  /** A missing block stops the merge at the least missing number, with the earlier blocks written. */
  lemma MergeOfPartialStore(files: map<nat, Bytes>, n: nat, g: nat)
    requires g < n && g !in files && forall k :: 0 <= k < g ==> k in files
    ensures MergeFiles(files, n) == Merged(g, Joined(files, 0, g))
  {
    GapIsLeastMissing(files, n, 0);
  }

  /** Splitting a nonempty file and merging its blocks is the identity. */
  lemma SplitThenMerge(data: Bytes, b: nat, files: map<nat, Bytes>)
    requires b > 0 && data != [] && Holds(files, Blocks(data, b), 0)
    ensures MergeFiles(files, BlockCount(|data|, b)) == Merged(0, data)
  {
    BlocksAreCounted(data, b);
    BlocksCoverFile(data, b);
    MergeOfAllBlocks(files, Blocks(data, b));
  }

  lemma BlocksStep(data: Bytes, start: nat, stop: nat, b: nat)
    requires b > 0 && start < |data| && stop == Min(start + b, |data|)
    ensures Blocks(data[start..], b) == [data[start..stop]] + Blocks(data[stop..], b)
  {
    var rest := data[start..];
    assert rest[..stop - start] == data[start..stop];
    assert rest[stop - start..] == data[stop..];
  }

  lemma OneMoreBlock(data: Bytes, start: nat, stop: nat, b: nat, done: seq<Bytes>)
    requires b > 0 && start < |data| && stop == Min(start + b, |data|)
    requires Blocks(data, b) == done + Blocks(data[start..], b)
    ensures Blocks(data, b) == (done + [data[start..stop]]) + Blocks(data[stop..], b)
  {
    BlocksStep(data, start, stop, b);
    var block, rest := data[start..stop], Blocks(data[stop..], b);
    assert done + ([block] + rest) == (done + [block]) + rest;
  }

  // ----- The directory -----

  class TempDir {
    var exists_: bool
    var files: map<nat, Bytes>
    var mergeOut: Bytes

    constructor (files: map<nat, Bytes>)
      ensures this.files == files && !exists_
    {
      this.files := files;
      exists_ := false;
      mergeOut := [];
    }

    method MakeDir()
      modifies this`exists_
      ensures exists_
    {
      exists_ := true;
    }

    method WriteFile(i: nat, content: Bytes)
      modifies this`files
      ensures files == old(files)[i := content]
    {
      files := files[i := content];
    }

    method RemoveAll()
      modifies this
      ensures files == map[] && !exists_
    {
      files := map[];
      mergeOut := [];
      exists_ := false;
    }

    /** The inner loop of split: pieces of 1024 bytes until the block is full or the file ends. */
    method ReadBlock(data: Bytes, start: nat, blockSize: nat) returns (out: Bytes, readCount: nat)
      requires start <= |data|
      ensures readCount == Min(start + 1024 * blockSize, |data|)
      ensures out == data[start..readCount]
    {
      out, readCount := [], start;
      ghost var pieces := 0;
      while |out| < 1024 * blockSize && readCount < |data|
        invariant start <= readCount <= |data| && out == data[start..readCount]
        invariant pieces <= blockSize
        invariant |out| == READ_SIZE * pieces || (readCount == |data| && |out| <= READ_SIZE * pieces)
        decreases |data| - readCount
      {
        var curCount := Min(READ_SIZE, |data| - readCount);
        out := out + data[readCount..readCount + curCount];
        readCount := readCount + curCount;
        pieces := pieces + 1;
      }
    }

    /** Cuts the file after every blockSize KB and writes each block under its number. */
    method Split(data: Bytes, blockSize: nat)
      requires blockSize > 0
      modifies this`files
      ensures Holds(files, Blocks(data, 1024 * blockSize), 0)
      ensures forall i :: i in files && i >= |Blocks(data, 1024 * blockSize)| ==>
                i in old(files) && files[i] == old(files)[i]
    {
      var b := blockSize * 1024;
      var readCount := 0;
      var i := 0;
      ghost var done := [];
      while readCount < |data|
        invariant 0 <= readCount <= |data|
        invariant Blocks(data, b) == done + Blocks(data[readCount..], b)
        invariant |done| == i && Holds(files, done, 0)
        invariant forall k :: k in files && k >= i ==> k in old(files) && files[k] == old(files)[k]
        decreases |data| - readCount
      {
        ghost var start := readCount;
        var out;
        out, readCount := ReadBlock(data, readCount, blockSize);
        OneMoreBlock(data, start, readCount, b, done);
        HoldsAppend(files, done, out);
        files := files[i := out];
        done := done + [out];
        i := i + 1;
      }
      assert data[readCount..] == [];
    }

    /** Appends the blocks to merge.out in pieces of 1024 bytes, until one is missing. */
    method Merge(blockNum: nat) returns (code: int)
      modifies this`mergeOut
      ensures !exists_ ==> code == -1
      ensures exists_ ==> Merged(code, mergeOut) == MergeFiles(files, blockNum)
    {
      if !exists_ {
        return -1;
      }
      mergeOut := [];
      var readSize := 0;
      var i := 0;
      while i != blockNum
        invariant 0 <= i <= blockNum && readSize == |mergeOut|
        invariant forall k :: 0 <= k < i ==> k in files
        invariant mergeOut == Joined(files, 0, i)
        invariant Gap(files, blockNum, 0) == Gap(files, blockNum, i)
        decreases blockNum - i
      {
        if i !in files {
          return i;
        }
        var block := files[i];
        var thisTimesRead := 0;
        ghost var before := mergeOut;
        while thisTimesRead < |block|
          invariant 0 <= thisTimesRead <= |block| && readSize == |mergeOut|
          invariant mergeOut == before + block[..thisTimesRead]
          decreases |block| - thisTimesRead
        {
          var curCount := Min(READ_SIZE, |block| - thisTimesRead);
          assert block[..thisTimesRead] + block[thisTimesRead..thisTimesRead + curCount]
              == block[..thisTimesRead + curCount];
          mergeOut := mergeOut + block[thisTimesRead..thisTimesRead + curCount];
          thisTimesRead := thisTimesRead + curCount;
          readSize := readSize + curCount;
        }
        JoinedSnoc(files, 0, i);
        assert block[..thisTimesRead] == block;
        i := i + 1;
      }
      if readSize == 0 {
        return -1;
      }
      return 0;
    }
  }

  lemma {:induction false} JoinedSnoc(files: map<nat, Bytes>, i: nat, j: nat)
    requires i <= j && forall k :: i <= k < j + 1 ==> k in files
    ensures Joined(files, i, j + 1) == Joined(files, i, j) + files[j]
    decreases j - i
  {
    if i < j {
      JoinedSnoc(files, i + 1, j);
      assert files[i] + (Joined(files, i + 1, j) + files[j]) == (files[i] + Joined(files, i + 1, j)) + files[j];
    } else {
      assert Joined(files, j + 1, j + 1) == [];
      assert files[j] + [] == [] + files[j];
    }
  }
}
