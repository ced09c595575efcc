/** Day 9: a disk map of alternating file and free-space lengths is expanded
    into one block per cell, then compacted two ways: block by block from the
    back (part 1), and file by file into the leftmost free run that holds the
    whole file (part 2). The answer to both parts is a position-weighted
    checksum of the compacted disk. */
module DiskCompaction {
  import opened Wrappers
  import opened Text

  /** One disk cell: the '.' marker or the id of the file it belongs to. */
  datatype Block = Free | File(id: nat)

  /** `parseInput`: `Number` of every character of the input, so a digit is
      its value, a white-space character (the final newline) is 0 and
      anything else is NaN (None). */
  function ParseInput(input: string): (data: seq<Option<int>>)
    ensures |data| == |input|
    ensures forall i :: 0 <= i < |data| ==> data[i].None? || 0 <= data[i].value <= 9
  {
    seq(|input|, i requires 0 <= i < |input| => CharNumber(input[i]))
  }

  lemma ParseInputIsNumber(input: string)
    ensures forall i :: 0 <= i < |input| ==> ParseInput(input)[i] == Number([input[i]])
  {
    forall i | 0 <= i < |input|
      ensures ParseInput(input)[i] == Number([input[i]])
    {
      CharNumberIsNumber(input[i]);
    }
  }

  /** How many cells `for (j = 0; j < d; j++)` emits: `j < NaN` is false, so
      NaN emits none, like 0. */
  function Copies(d: Option<int>): (n: nat)
    ensures d.Some? && d.value > 0 ==> n == d.value
    ensures d.None? || d.value <= 0 ==> n == 0
  {
    if d.Some? && d.value > 0 then d.value else 0
  }

  function TotalCopies(data: seq<Option<int>>): nat {
    if |data| == 0 then 0 else TotalCopies(data[..|data| - 1]) + Copies(data[|data| - 1])
  }

  /** The cells digit i stands for: file i/2 when i is even, free space when
      it is odd. */
  function Chunk(i: nat, d: Option<int>): seq<Block> {
    seq(Copies(d), _ => if i % 2 == 0 then File(i / 2) else Free)
  }

  /** The disk the map describes, digit by digit. */
  function Layout(data: seq<Option<int>>): (r: seq<Block>)
    ensures |r| == TotalCopies(data)
  {
    if |data| == 0 then [] else Layout(data[..|data| - 1]) + Chunk(|data| - 1, data[|data| - 1])
  }

  /** `expandData`: one pass over the map pushing a block per cell. */
  method ExpandData(data: seq<Option<int>>) returns (files: seq<Block>)
    ensures files == Layout(data)
  {
    files := [];
    var fileId: nat := 0;
    var i := 0;
    while i < |data|
      invariant 0 <= i <= |data|
      invariant files == Layout(data[..i])
      invariant fileId == (i + 1) / 2
    {
      var block := if i % 2 == 0 then File(fileId) else Free;
      assert i % 2 == 0 ==> fileId == i / 2;
      assert Chunk(i, data[i]) == seq(Copies(data[i]), _ => block);
      LayoutSnoc(data, i);
      files := PushCopies(files, block, Copies(data[i]));
      if i % 2 == 0 {
        fileId := fileId + 1;
      }
      i := i + 1;
    }
    assert data[..i] == data;
  }

  lemma LayoutSnoc(data: seq<Option<int>>, i: nat)
    requires i < |data|
    ensures Layout(data[..i + 1]) == Layout(data[..i]) + Chunk(i, data[i])
  {
    assert data[..i + 1][..i] == data[..i];
  }

  /** The inner loop of `expandData`: push one block `count` times. */
  method PushCopies(files: seq<Block>, block: Block, count: nat) returns (r: seq<Block>)
    ensures r == files + seq(count, _ => block)
  {
    r := files;
    var j := 0;
    while j < count
      invariant 0 <= j <= count
      invariant r == files + seq(j, _ => block)
    {
      assert seq(j + 1, _ => block) == seq(j, _ => block) + [block];
      r := r + [block];
      j := j + 1;
    }
  }

  /** File ids never decrease from left to right. */
  predicate NondecreasingIds(m: seq<Block>) {
    forall a, b :: 0 <= a < b < |m| && m[a].File? && m[b].File? ==> m[a].id <= m[b].id
  }

  /** The cells of any one file form one contiguous stretch. */
  predicate Contiguous(m: seq<Block>) {
    forall a, b, c :: 0 <= a < b < c < |m| && m[a].File? && m[c] == m[a] ==> m[b] == m[a]
  }

  /** Every id in the layout comes from an earlier even digit. */
  lemma {:induction false} LayoutIdsBelow(data: seq<Option<int>>)
    ensures forall k :: 0 <= k < |Layout(data)| && Layout(data)[k].File? ==> 2 * Layout(data)[k].id < |data|
  {
    if |data| > 0 {
      var init := data[..|data| - 1];
      LayoutIdsBelow(init);
      var l := Layout(init);
      var c := Chunk(|data| - 1, data[|data| - 1]);
      var m: seq<Block> := l + c;
      assert Layout(data) == m;
      forall k | 0 <= k < |m| && m[k].File?
        ensures 2 * m[k].id < |data|
      {
        if k < |l| {
          assert m[k] == l[k];
        } else {
          assert m[k] == c[k - |l|];
        }
      }
    }
  }

  /** The expanded layout lists files in id order, each in one stretch: the
      shape part 1 and `shapeData` rely on. */
  lemma {:induction false} LayoutShape(data: seq<Option<int>>)
    ensures NondecreasingIds(Layout(data))
    ensures Contiguous(Layout(data))
  {
    if |data| > 0 {
      var n := |data| - 1;
      var init := data[..n];
      LayoutShape(init);
      LayoutIdsBelow(init);
      var l := Layout(init);
      var c := Chunk(n, data[n]);
      var m: seq<Block> := l + c;
      assert Layout(data) == m;
      forall a, b | 0 <= a < b < |m| && m[a].File? && m[b].File?
        ensures m[a].id <= m[b].id
      {
        if b < |l| {
          assert m[a] == l[a] && m[b] == l[b];
        } else if a < |l| {
          assert m[a] == l[a] && m[b] == c[b - |l|];
        } else {
          assert m[a] == c[a - |l|] && m[b] == c[b - |l|];
        }
      }
      forall a, b, d | 0 <= a < b < d < |m| && m[a].File? && m[d] == m[a]
        ensures m[b] == m[a]
      {
        if d < |l| {
          assert m[a] == l[a] && m[b] == l[b] && m[d] == l[d];
        } else if a < |l| {
          assert false;
        } else {
          assert m[a] == c[a - |l|] && m[b] == c[b - |l|];
        }
      }
    }
  }

  /** The ids on a disk, with multiplicity. */
  function Ids(m: seq<Block>): multiset<nat> {
    if |m| == 0 then multiset{} else Ids(m[..|m| - 1]) + IdOf(m[|m| - 1])
  }

  function IdOf(b: Block): multiset<nat> {
    if b.File? then multiset{b.id} else multiset{}
  }

  /** Digit 2x of the map gives file x exactly that many cells. */
  lemma {:induction false} LayoutIds(data: seq<Option<int>>, x: nat)
    ensures Ids(Layout(data))[x] == if 2 * x < |data| then Copies(data[2 * x]) else 0
  {
    if |data| > 0 {
      var n := |data| - 1;
      var init := data[..n];
      var l := Layout(init);
      var c := Chunk(n, data[n]);
      assert Layout(data) == l + c;
      LayoutIds(init, x);
      IdsAppend(l, c);
      ChunkIds(n, data[n], x);
      assert Ids(Layout(data))[x] == Ids(l)[x] + Ids(c)[x];
      if 2 * x < n {
        assert init[2 * x] == data[2 * x];
        assert Ids(c)[x] == 0;
      } else if 2 * x == n {
        assert Ids(l)[x] == 0;
      } else {
        assert Ids(l)[x] == 0 && Ids(c)[x] == 0;
      }
    }
  }

  lemma {:induction false} IdsAppend(a: seq<Block>, b: seq<Block>)
    ensures Ids(a + b) == Ids(a) + Ids(b)
    decreases |b|
  {
    if |b| > 0 {
      assert (a + b)[..|a + b| - 1] == a + b[..|b| - 1];
      IdsAppend(a, b[..|b| - 1]);
    } else {
      assert a + b == a;
    }
  }

  lemma ChunkIds(i: nat, d: Option<int>, x: nat)
    ensures Ids(Chunk(i, d))[x] == if i == 2 * x then Copies(d) else 0
  {
    RepeatIds(if i % 2 == 0 then File(i / 2) else Free, Copies(d), x);
    assert Chunk(i, d) == seq(Copies(d), _ => if i % 2 == 0 then File(i / 2) else Free);
  }

  lemma {:induction false} RepeatIds(b: Block, n: nat, x: nat)
    ensures Ids(seq(n, _ => b))[x] == if b == File(x) then n else 0
  {
    if n > 0 {
      assert seq(n, _ => b)[..n - 1] == seq(n - 1, _ => b);
      RepeatIds(b, n - 1, x);
    }
  }

  /** Overwriting one cell trades its id for the new one. */
  lemma IdsUpdate(m: seq<Block>, k: nat, b: Block)
    requires k < |m|
    ensures Ids(m[k := b]) + IdOf(m[k]) == Ids(m) + IdOf(b)
  {
    forall y
      ensures (Ids(m[k := b]) + IdOf(m[k]))[y] == (Ids(m) + IdOf(b))[y]
    {
      IdsUpdateCount(m, k, b, y);
    }
  }

  lemma {:induction false} IdsUpdateCount(m: seq<Block>, k: nat, b: Block, y: nat)
    requires k < |m|
    ensures Ids(m[k := b])[y] + IdOf(m[k])[y] == Ids(m)[y] + IdOf(b)[y]
  {
    var n := |m| - 1;
    var u := m[k := b];
    IdsLast(u, y);
    IdsLast(m, y);
    if k == n {
      assert u[..n] == m[..n];
    } else {
      var p := m[..n];
      assert u[..n] == p[k := b] && u[n] == m[n];
      IdsUpdateCount(p, k, b, y);
    }
  }

  lemma IdsLast(m: seq<Block>, y: nat)
    requires |m| > 0
    ensures Ids(m)[y] == Ids(m[..|m| - 1])[y] + IdOf(m[|m| - 1])[y]
  {
  }

  lemma Cancel(a: multiset<nat>, b: multiset<nat>, x: multiset<nat>)
    requires a + x == b + x
    ensures a == b
  {
    forall y
      ensures a[y] == b[y]
    {
      assert (a + x)[y] == (b + x)[y];
    }
  }

  /** What one cell adds to the checksum: position times id. */
  function Weight(b: Block, k: nat): nat {
    if b.File? then k * b.id else 0
  }

  /** Σ i × id over the file cells. */
  function Checksum(m: seq<Block>): nat {
    if |m| == 0 then 0 else Checksum(m[..|m| - 1]) + Weight(m[|m| - 1], |m| - 1)
  }

  /** Overwriting one cell trades its weight for the new one. */
  lemma {:induction false} ChecksumUpdate(m: seq<Block>, k: nat, b: Block)
    requires k < |m|
    ensures Checksum(m[k := b]) + Weight(m[k], k) == Checksum(m) + Weight(b, k)
  {
    var n := |m| - 1;
    if k == n {
      assert m[k := b][..n] == m[..n];
    } else {
      assert m[k := b][..n] == m[..n][k := b];
      ChecksumUpdate(m[..n], k, b);
    }
  }

  lemma MulMono(i: nat, j: nat, x: nat)
    requires i <= j
    ensures i * x <= j * x
  {
  }

  /** Moving a file cell into a free cell further left keeps every id and
      does not raise the checksum. */
  lemma MoveLeft(m: seq<Block>, i: nat, j: nat)
    requires i < j < |m| && m[i] == Free && m[j].File?
    ensures Ids(m[i := m[j]][j := Free]) == Ids(m)
    ensures Checksum(m[i := m[j]][j := Free]) <= Checksum(m)
  {
    var m1 := m[i := m[j]];
    var m2 := m1[j := Free];
    IdsUpdate(m, i, m[j]);
    IdsUpdate(m1, j, Free);
    assert m1[j] == m[j] && IdOf(m[i]) == IdOf(Free) == multiset{};
    Cancel(Ids(m2), Ids(m), IdOf(m[j]));
    ChecksumUpdate(m, i, m[j]);
    ChecksumUpdate(m1, j, Free);
    MulMono(i, j, m[j].id);
  }

  /** The checksum loop of both parts: skip '.', add `memory[i] * i`. */
  method ChecksumOf(memory: seq<Block>) returns (answer: nat)
    ensures answer == Checksum(memory)
  {
    answer := 0;
    var i := 0;
    while i < |memory|
      invariant 0 <= i <= |memory|
      invariant answer == Checksum(memory[..i])
    {
      assert memory[..i + 1][..i] == memory[..i];
      if memory[i] != Free {
        answer := answer + memory[i].id * i;
      }
      i := i + 1;
    }
    assert memory[..i] == memory;
  }

  /** No free cell before a file cell. */
  predicate Gapless(m: seq<Block>) {
    forall a, b :: 0 <= a < b < |m| && m[a] == Free ==> m[b] == Free
  }

  /** Block compaction with two pointers, as the puzzle describes it: the
      left pointer i stops on free cells, the right pointer j on file
      cells, and each such pair swaps until the pointers meet. */
  function Fill(m: seq<Block>, i: nat, j: int): (r: seq<Block>)
    requires j < |m|
    ensures |r| == |m|
    decreases if j > i then j - i else 0
  {
    if j <= i then m
    else if m[i].File? then Fill(m, i + 1, j)
    else if m[j] == Free then Fill(m, i, j - 1)
    else Fill(m[i := m[j]][j := Free], i + 1, j - 1)
  }

  /** One move of the pointers: the state Fill continues from, which
      keeps every id and does not raise the checksum. */
  lemma FillNext(m: seq<Block>, i: nat, j: int) returns (n: (seq<Block>, nat, int))
    requires i < j < |m|
    ensures n.2 < |n.0| && n.2 - n.1 < j - i
    ensures Fill(m, i, j) == Fill(n.0, n.1, n.2)
    ensures Ids(n.0) == Ids(m) && Checksum(n.0) <= Checksum(m)
  {
    if m[i].File? {
      n := (m, i + 1, j);
    } else if m[j] == Free {
      n := (m, i, j - 1);
    } else {
      MoveLeft(m, i, j);
      n := (m[i := m[j]][j := Free], i + 1, j - 1);
    }
  }

  /** The disk after block compaction. */
  function BlockCompact(m: seq<Block>): seq<Block> {
    Fill(m, 0, |m| - 1)
  }

  /** Block compaction leaves no gap, keeps every id and never raises the
      checksum. */
  lemma BlockCompactShape(m: seq<Block>)
    ensures Gapless(BlockCompact(m))
    ensures Ids(BlockCompact(m)) == Ids(m)
    ensures Checksum(BlockCompact(m)) <= Checksum(m)
  {
    FillShape(m, 0, |m| - 1);
  }

  /** With file cells left of i and free cells right of j, the pointers'
      work leaves no gap. */
  lemma {:induction false} FillShape(m: seq<Block>, i: nat, j: int)
    requires j < |m| && i <= j + 1
    requires forall t :: 0 <= t < i ==> m[t].File?
    requires forall t :: j < t < |m| ==> m[t] == Free
    ensures Gapless(Fill(m, i, j))
    ensures Ids(Fill(m, i, j)) == Ids(m)
    ensures Checksum(Fill(m, i, j)) <= Checksum(m)
  {
    FillGapless(m, i, j);
    FillKeeps(m, i, j);
  }

  lemma {:induction false} FillGapless(m: seq<Block>, i: nat, j: int)
    requires j < |m| && i <= j + 1
    requires forall t :: 0 <= t < i ==> m[t].File?
    requires forall t :: j < t < |m| ==> m[t] == Free
    ensures Gapless(Fill(m, i, j))
    decreases if j > i then j - i else 0
  {
    if j <= i {
      forall a, b | 0 <= a < b < |m| && m[a] == Free
        ensures m[b] == Free
      {
        assert a >= i;
      }
    } else if m[i].File? {
      FillGapless(m, i + 1, j);
    } else if m[j] == Free {
      FillGapless(m, i, j - 1);
    } else {
      var m2 := m[i := m[j]][j := Free];
      assert forall t :: 0 <= t < i + 1 ==> m2[t].File?;
      assert forall t :: j - 1 < t < |m2| ==> m2[t] == Free;
      FillGapless(m2, i + 1, j - 1);
    }
  }

  lemma FillKeeps(m: seq<Block>, i: nat, j: int)
    requires j < |m|
    ensures Ids(Fill(m, i, j)) == Ids(m)
    ensures Checksum(Fill(m, i, j)) <= Checksum(m)
  {
    FillIds(m, i, j);
    FillChecksum(m, i, j);
  }

  lemma {:induction false} FillIds(m: seq<Block>, i: nat, j: int)
    requires j < |m|
    ensures Ids(Fill(m, i, j)) == Ids(m)
    decreases if j > i then j - i else 0
  {
    if j > i {
      var n := FillNext(m, i, j);
      FillIds(n.0, n.1, n.2);
    }
  }

  lemma {:induction false} FillChecksum(m: seq<Block>, i: nat, j: int)
    requires j < |m|
    ensures Checksum(Fill(m, i, j)) <= Checksum(m)
    decreases if j > i then j - i else 0
  {
    if j > i {
      var n := FillNext(m, i, j);
      FillChecksum(n.0, n.1, n.2);
    }
  }

  /** Free cells right of j give the right pointer nothing to do. */
  lemma {:induction false} FillFreeTail(m: seq<Block>, i: nat, j: int, k: int)
    requires j <= k < |m|
    requires forall t :: j < t <= k && 0 <= t ==> m[t] == Free
    ensures Fill(m, i, k) == Fill(m, i, j)
    decreases if k > i then k - i else 0
  {
    if k <= i || j == k {
    } else if m[i].File? {
      FillFreeTail(m, i + 1, j, k);
    } else {
      FillFreeTail(m, i, j, k - 1);
    }
  }

  /** `files[j] <= files[i]` in JavaScript: '.' <= '.' holds, two ids
      compare as numbers, and an id against '.' compares with NaN, which is
      false both ways. */
  predicate JsLessEq(a: Block, b: Block) {
    match (a, b)
    case (Free, Free) => true
    case (File(x), File(y)) => x <= y
    case _ => false
  }

  /** What part 1 knows about the disk between two pointers: cells after
      lo up to hi still hold their original block or have been emptied,
      and every cell after hi is free. */
  predicate Scanned(data: seq<Block>, files: seq<Block>, lo: int, hi: int) {
    |files| == |data| &&
    (forall k :: lo < k <= hi && 0 <= k < |data| ==> files[k] == data[k] || files[k] == Free) &&
    (forall k :: hi < k < |data| && 0 <= k ==> files[k] == Free)
  }

  /** The right-pointer scan of part 1 for one free cell i: resuming at
      `eof`, walk left; stop as soon as `files[j] <= files[i]`; move every
      file cell met into cell i. The pointer never moves right, every cell
      it has passed is free, and a scan that starts at a free cell stops at
      once: '.' <= '.' holds. */
  method ScanFromBack(data: seq<Block>, files0: seq<Block>, i: nat, eof0: int) returns (files: seq<Block>, eof: int)
    requires NondecreasingIds(data)
    requires Scanned(data, files0, i, eof0)
    requires i < |data| && files0[i] == Free
    requires -1 <= eof0 < |data|
    ensures -1 <= eof <= eof0
    ensures Scanned(data, files, i, eof)
    ensures Ids(files) == Ids(files0)
    ensures Checksum(files) <= Checksum(files0)
    ensures eof0 <= i || files0[eof0] == Free ==> files == files0 && eof == eof0
    ensures eof0 <= i || files0[eof0].File? ==>
      Fill(files, i + 1, eof) == Fill(files0, i, eof0) && (eof <= i + 1 || files[eof].File?)
  {
    files := files0;
    eof := eof0;
    var j := eof;
    ghost var src := |data|;
    while j > i
      invariant ScanState(data, files0, i, eof0, files, j, eof, src)
    {
      ScanAt(data, files0, i, eof0, files, j, eof, src);
      eof := j;
      if JsLessEq(files[j], files[i]) {
        ScanStop(data, files0, i, eof0, files, j, src);
        break;
      }
      ScanTurn(data, files0, i, eof0, files, j, src);
      if files[j] != Free {
        src := j;
        files := files[i := files[j]][j := Free];
      }
      j := j - 1;
    }
    if j <= i {
      ScanDone(data, files0, i, eof0, files, j, eof, src);
    }
  }

  /** Between two steps of the right pointer j: the cells it passed are
      free, cell i holds nothing or a block from further right, and once
      cell i is filled what is left of block compaction is the pointers'
      work from i + 1 and j. */
  ghost predicate ScanState(data: seq<Block>, files0: seq<Block>, i: nat, eof0: int, files: seq<Block>, j: int, eof: int, src: int) {
    && i < |data| && |files0| == |data| && -1 <= j <= eof <= eof0 < |data| && (eof == j || eof == j + 1)
    && Scanned(data, files, i, j)
    && (files[i] == Free || (j < src < |data| && data[src] == files[i]))
    && Ids(files) == Ids(files0) && Checksum(files) <= Checksum(files0)
    && (files[i] == Free ==> files == files0 && j == eof0)
    && (files[i].File? ==> i < eof0 && files0[eof0].File? && Fill(files, i + 1, j) == Fill(files0, i, eof0))
  }

  /** The scan stops on a cell no larger than cell i: a free cell while
      cell i is still free, or a file cell once it is filled. */
  lemma ScanStop(data: seq<Block>, files0: seq<Block>, i: nat, eof0: int, files: seq<Block>, j: int, src: int)
    requires ScanState(data, files0, i, eof0, files, j, j, src) && j > i
    requires NondecreasingIds(data) && Scanned(data, files0, i, eof0) && files0[i] == Free
    requires JsLessEq(files[j], files[i])
    ensures -1 <= j <= eof0 && Scanned(data, files, i, j)
    ensures Ids(files) == Ids(files0) && Checksum(files) <= Checksum(files0)
    ensures eof0 <= i || files0[eof0] == Free ==> files == files0 && j == eof0
    ensures eof0 <= i || files0[eof0].File? ==>
      Fill(files, i + 1, j) == Fill(files0, i, eof0) && (j <= i + 1 || files[j].File?)
  {
    if files[i] == Free {
      assert files[j] == Free;
    }
  }

  /** The pointer reads cell j: `eof` follows it. */
  lemma ScanAt(data: seq<Block>, files0: seq<Block>, i: nat, eof0: int, files: seq<Block>, j: int, eof: int, src: int)
    requires ScanState(data, files0, i, eof0, files, j, eof, src) && j > i
    ensures ScanState(data, files0, i, eof0, files, j, j, src)
  {
  }

  /** The pointer passes cell j, moving it into cell i when it holds a
      file block. */
  lemma ScanTurn(data: seq<Block>, files0: seq<Block>, i: nat, eof0: int, files: seq<Block>, j: int, src: int)
    requires NondecreasingIds(data)
    requires ScanState(data, files0, i, eof0, files, j, j, src) && j > i
    requires !JsLessEq(files[j], files[i])
    ensures files[j] != Free ==> ScanState(data, files0, i, eof0, files[i := files[j]][j := Free], j - 1, j, j)
    ensures files[j] == Free ==> ScanState(data, files0, i, eof0, files, j - 1, j, src)
  {
    if files[j] != Free {
      ScanMove(data, files0, i, eof0, files, j, src);
    } else {
      ScanSkip(data, files0, i, eof0, files, j, src);
    }
  }

  /** A free cell passed by the pointer changes nothing. */
  lemma ScanSkip(data: seq<Block>, files0: seq<Block>, i: nat, eof0: int, files: seq<Block>, j: int, src: int)
    requires ScanState(data, files0, i, eof0, files, j, j, src) && j > i
    requires !JsLessEq(files[j], files[i]) && files[j] == Free
    ensures ScanState(data, files0, i, eof0, files, j - 1, j, src)
  {
    FillFreeTail(files, i + 1, j - 1, j);
  }

  /** The file cell at j moves into the free cell i: the first move of the
      scan, since a later file cell is no larger than the one moved. */
  lemma ScanMove(data: seq<Block>, files0: seq<Block>, i: nat, eof0: int, files: seq<Block>, j: int, src: int)
    requires NondecreasingIds(data)
    requires ScanState(data, files0, i, eof0, files, j, j, src) && j > i
    requires !JsLessEq(files[j], files[i]) && files[j].File?
    ensures ScanState(data, files0, i, eof0, files[i := files[j]][j := Free], j - 1, j, j)
  {
    FilledStops(data, files0, i, eof0, files, j, src);
    MoveLeft(files, i, j);
    var m := files[i := files[j]][j := Free];
    assert Fill(m, i + 1, j - 1) == Fill(files, i, j);
  }

  /** Once cell i holds a moved file cell, the next file cell the pointer
      meets is no larger, so the scan stops there. */
  lemma FilledStops(data: seq<Block>, files0: seq<Block>, i: nat, eof0: int, files: seq<Block>, j: int, src: int)
    requires NondecreasingIds(data)
    requires ScanState(data, files0, i, eof0, files, j, j, src) && j > i
    ensures files[i].File? && files[j].File? ==> JsLessEq(files[j], files[i])
  {
    if files[i].File? && files[j].File? {
      assert files[j] == data[j] && data[j].id <= data[src].id;
    }
  }

  /** The pointer met cell i without stopping. */
  lemma ScanDone(data: seq<Block>, files0: seq<Block>, i: nat, eof0: int, files: seq<Block>, j: int, eof: int, src: int)
    requires ScanState(data, files0, i, eof0, files, j, eof, src) && j <= i
    requires Scanned(data, files0, i, eof0) && files0[i] == Free
    ensures -1 <= eof <= eof0 && Scanned(data, files, i, eof)
    ensures eof0 <= i || files0[eof0] == Free ==> files == files0 && eof == eof0
    ensures eof0 <= i || files0[eof0].File? ==>
      Fill(files, i + 1, eof) == Fill(files0, i, eof0) && (eof <= i + 1 || files[eof].File?)
  {
  }

  /** Part 1: the left pointer i walks over the disk and every free cell it
      meets gets one right-pointer scan. Returns the compacted disk and the
      final `eof`. */
  method CompactBlocks(data: seq<Block>) returns (files: seq<Block>, eof: int)
    requires NondecreasingIds(data)
    ensures |files| == |data|
    ensures Ids(files) == Ids(data)
    ensures Checksum(files) <= Checksum(data)
    ensures -1 <= eof < |data|
    ensures forall k :: eof < k < |files| ==> files[k] == Free
    ensures |data| > 0 && data[|data| - 1] == Free ==> files == data
    ensures |data| == 0 || data[|data| - 1] != Free ==> files == BlockCompact(data)
  {
    files := data;
    eof := |files| - 1;
    var i := 0;
    while i < |files|
      invariant CompactState(data, files, i, eof)
    {
      ghost var files0, eof0 := files, eof;
      if files[i] == Free {
        ScannedFrom(data, files, i, eof);
        files, eof := ScanFromBack(data, files, i, eof);
      }
      CompactStep(data, files0, i, eof0, files, eof);
      i := i + 1;
    }
  }

  /** The loop of `CompactBlocks` before cell i: the cells right of `eof`
      are free, ids and the checksum bound are kept, a disk ending in a
      free cell is untouched, and otherwise block compaction from cell i
      on gives the final disk. */
  ghost predicate CompactState(data: seq<Block>, files: seq<Block>, i: nat, eof: int) {
    && i <= |data| && -1 <= eof < |data|
    && Scanned(data, files, i - 1, eof)
    && Ids(files) == Ids(data) && Checksum(files) <= Checksum(data)
    && (|data| > 0 && data[|data| - 1] == Free ==> files == data && eof == |data| - 1)
    && (|data| == 0 || data[|data| - 1] != Free ==>
          Fill(files, i, eof) == BlockCompact(data) && (eof <= i || files[eof].File?))
  }

  lemma ScannedFrom(data: seq<Block>, files: seq<Block>, i: nat, eof: int)
    requires CompactState(data, files, i, eof) && i < |data|
    ensures Scanned(data, files, i, eof)
  {
  }

  /** One turn of the `CompactBlocks` loop keeps its state. */
  lemma CompactStep(data: seq<Block>, files0: seq<Block>, i: nat, eof0: int, files: seq<Block>, eof: int)
    requires NondecreasingIds(data)
    requires CompactState(data, files0, i, eof0) && i < |data|
    requires files0[i] != Free ==> files == files0 && eof == eof0
    requires files0[i] == Free ==>
      && -1 <= eof <= eof0
      && Scanned(data, files, i, eof)
      && Ids(files) == Ids(files0)
      && Checksum(files) <= Checksum(files0)
      && (eof0 <= i || files0[eof0] == Free ==> files == files0 && eof == eof0)
      && (eof0 <= i || files0[eof0].File? ==>
            Fill(files, i + 1, eof) == Fill(files0, i, eof0) && (eof <= i + 1 || files[eof].File?))
    ensures CompactState(data, files, i + 1, eof)
  {
    if files0[i] != Free && i < eof0 {
      assert Fill(files0, i, eof0) == Fill(files0, i + 1, eof0);
    }
  }

  /** A run of free cells as `shapeData` lists it: the array
      [hi, hi - 1, ..., lo], so `run[0]` is hi, `run.at(-1)` is lo,
      `run.pop()` yields lo and `run.length` is hi - lo + 1. */
  datatype Run = Run(hi: nat, lo: nat)

  function Size(r: Run): int {
    r.hi - r.lo + 1
  }

  predicate InRun(r: Run, k: int) {
    r.lo <= k <= r.hi
  }

  predicate IsFreeRun(m: seq<Block>, r: Run) {
    r.lo <= r.hi < |m| && forall k :: r.lo <= k <= r.hi ==> m[k] == Free
  }

  /** The free list: every run free, ordered right to left, each wholly
      right of the next, so the leftmost run is the last one. */
  predicate RunsShape(m: seq<Block>, runs: seq<Run>) {
    (forall r :: 0 <= r < |runs| ==> IsFreeRun(m, runs[r])) &&
    forall r, s :: 0 <= r < s < |runs| ==> runs[s].hi < runs[r].lo
  }

  /** A free run that cannot be extended at either end. */
  predicate MaximalRun(m: seq<Block>, r: Run)
    requires IsFreeRun(m, r)
  {
    (r.hi + 1 == |m| || m[r.hi + 1] != Free) && (r.lo == 0 || m[r.lo - 1] != Free)
  }

  /** The first half of `shapeData`: scanning from the back, every free
      cell opens a run that collects the free cells below it. After a run
      the loop's own decrement skips the cell that stopped it, which is
      never free. */
  method FreeRuns(memory: seq<Block>) returns (runs: seq<Run>)
    ensures RunsShape(memory, runs)
    ensures forall r :: 0 <= r < |runs| ==> MaximalRun(memory, runs[r])
    ensures forall k :: 0 <= k < |memory| && memory[k] == Free ==> exists r :: 0 <= r < |runs| && InRun(runs[r], k)
  {
    runs := [];
    var i: int := |memory| - 1;
    while i >= 0
      invariant -2 <= i < |memory|
      invariant FreeScanned(memory, runs, i)
    {
      if memory[i] == Free {
        var top := i;
        i := CollectRun(memory, top);
        FreeScanStep(memory, runs, Run(top, i + 1));
        runs := runs + [Run(top, i + 1)];
      }
      i := i - 1;
    }
  }

  /** The inner loop of the free scan: down from the free cell `top` while
      the cells stay free. Returns the index that stopped it. */
  method CollectRun(memory: seq<Block>, top: nat) returns (i: int)
    requires top < |memory| && memory[top] == Free
    ensures -1 <= i < top
    ensures forall k :: i < k <= top ==> memory[k] == Free
    ensures i >= 0 ==> memory[i] != Free
  {
    i := top;
    while i >= 0 && memory[i] == Free
      invariant -1 <= i <= top
      invariant forall k :: i < k <= top ==> memory[k] == Free
    {
      i := i - 1;
    }
  }

  /** What the free scan knows once it has looked at every cell above i:
      the runs so far are free, ordered, maximal and lie above i, cell i + 1
      is not free, and every free cell above i is in a run. */
  predicate FreeScanned(memory: seq<Block>, runs: seq<Run>, i: int) {
    RunsShape(memory, runs) &&
    (forall r :: 0 <= r < |runs| ==> MaximalRun(memory, runs[r]) && runs[r].lo > i) &&
    (0 <= i + 1 < |memory| ==> memory[i + 1] != Free) &&
    forall k :: 0 <= k < |memory| && i < k && memory[k] == Free ==> exists r :: 0 <= r < |runs| && InRun(runs[r], k)
  }

  lemma FreeScanStep(memory: seq<Block>, runs: seq<Run>, run: Run)
    requires run.hi < |memory| && FreeScanned(memory, runs, run.hi)
    requires run.lo <= run.hi && forall k :: run.lo <= k <= run.hi ==> memory[k] == Free
    requires run.lo > 0 ==> memory[run.lo - 1] != Free
    ensures FreeScanned(memory, runs + [run], run.lo - 2)
  {
    var rs := runs + [run];
    forall r | 0 <= r < |rs|
      ensures IsFreeRun(memory, rs[r]) && MaximalRun(memory, rs[r]) && rs[r].lo > run.lo - 2
    {
      if r < |runs| {
        assert rs[r] == runs[r];
      }
    }
    forall r, s | 0 <= r < s < |rs|
      ensures rs[s].hi < rs[r].lo
    {
      assert rs[r] == runs[r];
      if s < |runs| {
        assert rs[s] == runs[s];
      }
    }
    forall k | 0 <= k < |memory| && run.lo - 2 < k && memory[k] == Free
      ensures exists r :: 0 <= r < |rs| && InRun(rs[r], k)
    {
      if k <= run.hi {
        assert InRun(rs[|rs| - 1], k);
      } else {
        var r :| 0 <= r < |runs| && InRun(runs[r], k);
        assert rs[r] == runs[r];
      }
    }
  }

  /** A file block as `shapeData` lists it: `[id, [lo, lo + 1, ..., hi]]`. */
  datatype FileBlock = FileBlock(id: nat, lo: nat, hi: nat)

  function FileSize(f: FileBlock): int {
    f.hi - f.lo + 1
  }

  predicate InBlock(f: FileBlock, k: int) {
    f.lo <= k <= f.hi
  }

  predicate IsFileBlock(m: seq<Block>, f: FileBlock) {
    f.lo <= f.hi < |m| && forall k :: f.lo <= k <= f.hi ==> m[k] == File(f.id)
  }

  /** The file list: blocks ordered left to right, each wholly left of the
      next, so the rightmost file is the last one. */
  predicate BlocksShape(m: seq<Block>, blocks: seq<FileBlock>) {
    (forall b :: 0 <= b < |blocks| ==> IsFileBlock(m, blocks[b])) &&
    forall a, b :: 0 <= a < b < |blocks| ==> blocks[a].hi < blocks[b].lo
  }

  /** A file block that cannot be extended at either end. */
  predicate MaximalBlock(m: seq<Block>, f: FileBlock)
    requires IsFileBlock(m, f)
  {
    (f.lo == 0 || m[f.lo - 1] != File(f.id)) && (f.hi + 1 == |m| || m[f.hi + 1] != File(f.id))
  }

  /** Cell k is the last cell of the disk and the first of its file. */
  predicate StartsAtEnd(m: seq<Block>, k: nat)
    requires k < |m|
  {
    k == |m| - 1 && (k == 0 || m[k - 1] != m[k])
  }

  /** Cell k holds file `id`, for an id that may be the initial -1. */
  predicate Holds(m: seq<Block>, k: nat, id: int)
    requires k < |m|
  {
    m[k].File? && m[k].id == id
  }

  /** The second half of `shapeData`: scanning from the front while
      `i < memory.length - 1`, a cell with a new id opens a block that
      collects the cells holding that id. A file that starts in the last
      cell is therefore never listed. A cell repeating the previous block's
      id would make the scan stand still forever (`i--` undoes the loop's
      increment); files in one stretch rule that out. */
  method FileBlocks(memory: seq<Block>) returns (blocks: seq<FileBlock>)
    requires Contiguous(memory)
    ensures BlocksShape(memory, blocks)
    ensures forall b :: 0 <= b < |blocks| ==> MaximalBlock(memory, blocks[b]) && blocks[b].lo < |memory| - 1
    ensures forall k :: 0 <= k < |memory| && memory[k].File? ==>
      (StartsAtEnd(memory, k) <==> !exists b :: 0 <= b < |blocks| && InBlock(blocks[b], k))
  {
    blocks := [];
    var fileId: int := -1;
    var i := 0;
    while i < |memory| - 1
      invariant 0 <= i <= |memory|
      invariant FileScanned(memory, blocks, fileId, i)
    {
      if memory[i] == Free {
        SkipFree(memory, blocks, fileId, i);
        i := i + 1;
      } else {
        // The source's `memory[i] !== file_id` always holds here; were it
        // false, `i--` would cancel the loop's increment forever.
        assert !Holds(memory, i, fileId);
        var id := memory[i].id;
        var start := i;
        i := CollectBlock(memory, start);
        FileScanStep(memory, blocks, fileId, FileBlock(id, start, i - 1));
        blocks := blocks + [FileBlock(id, start, i - 1)];
        fileId := id;
      }
    }
    FileScanDone(memory, blocks, fileId, i);
  }

  /** The inner loop of the file scan: up from `start` while the cells hold
      its id. Returns the first index past the block. */
  method CollectBlock(memory: seq<Block>, start: nat) returns (i: nat)
    requires start < |memory| && memory[start].File?
    ensures start < i <= |memory|
    ensures forall k :: start <= k < i ==> memory[k] == memory[start]
    ensures i < |memory| ==> memory[i] != memory[start]
  {
    i := start;
    while i < |memory| && memory[i] == memory[start]
      invariant start <= i <= |memory|
      invariant forall k :: start <= k < i ==> memory[k] == memory[start]
    {
      i := i + 1;
    }
  }

  /** What the file scan knows before cell i: the blocks so far are
      ordered, maximal, start before the last cell and end before i, every
      file cell before i is in a block, the last block's id does not occur
      from i on, and cell i - 1 is free or ends that block. */
  predicate FileScanned(memory: seq<Block>, blocks: seq<FileBlock>, fileId: int, i: nat) {
    BlocksShape(memory, blocks) &&
    (forall b :: 0 <= b < |blocks| ==> MaximalBlock(memory, blocks[b]) && blocks[b].lo < |memory| - 1 && blocks[b].hi < i) &&
    (forall k :: 0 <= k < |memory| && k < i && memory[k].File? ==> exists b :: 0 <= b < |blocks| && InBlock(blocks[b], k)) &&
    (forall k :: i <= k < |memory| ==> !Holds(memory, k, fileId)) &&
    (0 < i <= |memory| ==> memory[i - 1] == Free || Holds(memory, i - 1, fileId))
  }

  lemma SkipFree(memory: seq<Block>, blocks: seq<FileBlock>, fileId: int, i: nat)
    requires i < |memory| && memory[i] == Free && FileScanned(memory, blocks, fileId, i)
    ensures FileScanned(memory, blocks, fileId, i + 1)
  {
  }

  lemma FileScanStep(memory: seq<Block>, blocks: seq<FileBlock>, fileId: int, f: FileBlock)
    requires Contiguous(memory)
    requires f.lo < |memory| - 1 && FileScanned(memory, blocks, fileId, f.lo)
    requires f.lo <= f.hi < |memory| && memory[f.lo] == File(f.id) && f.id != fileId
    requires forall k :: f.lo <= k <= f.hi ==> memory[k] == memory[f.lo]
    requires f.hi + 1 < |memory| ==> memory[f.hi + 1] != memory[f.lo]
    ensures FileScanned(memory, blocks + [f], f.id, f.hi + 1)
  {
    BlocksSnoc(memory, blocks, f);
    BlocksCoverSnoc(memory, blocks, f);
    IdEndsWithBlock(memory, f);
  }

  lemma BlocksSnoc(memory: seq<Block>, blocks: seq<FileBlock>, f: FileBlock)
    requires BlocksShape(memory, blocks)
    requires forall b :: 0 <= b < |blocks| ==> MaximalBlock(memory, blocks[b]) && blocks[b].lo < |memory| - 1 && blocks[b].hi < f.lo
    requires IsFileBlock(memory, f) && MaximalBlock(memory, f) && f.lo < |memory| - 1
    ensures BlocksShape(memory, blocks + [f])
    ensures forall b :: 0 <= b < |blocks| + 1 ==> MaximalBlock(memory, (blocks + [f])[b]) && (blocks + [f])[b].lo < |memory| - 1 && (blocks + [f])[b].hi < f.hi + 1
  {
    var bs := blocks + [f];
    forall b | 0 <= b < |bs|
      ensures IsFileBlock(memory, bs[b]) && MaximalBlock(memory, bs[b]) && bs[b].lo < |memory| - 1 && bs[b].hi < f.hi + 1
    {
      if b < |blocks| {
        assert bs[b] == blocks[b];
      }
    }
    forall a, b | 0 <= a < b < |bs|
      ensures bs[a].hi < bs[b].lo
    {
      assert bs[a] == blocks[a];
      if b < |blocks| {
        assert bs[b] == blocks[b];
      }
    }
  }

  lemma BlocksCoverSnoc(memory: seq<Block>, blocks: seq<FileBlock>, f: FileBlock)
    requires forall k :: 0 <= k < |memory| && k < f.lo && memory[k].File? ==> exists b :: 0 <= b < |blocks| && InBlock(blocks[b], k)
    ensures forall k :: 0 <= k < |memory| && k < f.hi + 1 && memory[k].File? ==> exists b :: 0 <= b < |blocks| + 1 && InBlock((blocks + [f])[b], k)
  {
    var bs := blocks + [f];
    forall k | 0 <= k < |memory| && k < f.hi + 1 && memory[k].File?
      ensures exists b :: 0 <= b < |bs| && InBlock(bs[b], k)
    {
      if f.lo <= k {
        assert InBlock(bs[|bs| - 1], k);
      } else {
        var b :| 0 <= b < |blocks| && InBlock(blocks[b], k);
        assert bs[b] == blocks[b];
      }
    }
  }

  /** Past the end of a maximal block its id never occurs again. */
  lemma IdEndsWithBlock(memory: seq<Block>, f: FileBlock)
    requires Contiguous(memory)
    requires f.lo <= f.hi < |memory| && memory[f.lo] == File(f.id)
    requires f.hi + 1 < |memory| ==> memory[f.hi + 1] != memory[f.lo]
    ensures forall k :: f.hi + 1 <= k < |memory| ==> !Holds(memory, k, f.id)
  {
    forall k | f.hi + 1 < k < |memory|
      ensures !Holds(memory, k, f.id)
    {
      assert f.lo < f.hi + 1 < k;
    }
  }

  /** When the scan stops, the only file cell it has not passed is the
      last cell, and that cell starts its file. */
  lemma FileScanDone(memory: seq<Block>, blocks: seq<FileBlock>, fileId: int, i: nat)
    requires |memory| - 1 <= i <= |memory| && FileScanned(memory, blocks, fileId, i)
    requires forall b :: 0 <= b < |blocks| ==> blocks[b].lo < |memory| - 1
    ensures forall k :: 0 <= k < |memory| && memory[k].File? ==>
      (StartsAtEnd(memory, k) <==> !exists b :: 0 <= b < |blocks| && InBlock(blocks[b], k))
  {
    forall k | i <= k < |memory| && memory[k].File?
      ensures StartsAtEnd(memory, k)
    {
      assert k == i && !Holds(memory, k, fileId);
    }
  }

  /** The run a file of `size` cells starting at `start` is moved into:
      free runs are tried from the leftmost one; the search gives up at the
      first run that starts right of the file (`e.at(-1) > f[1][0]`) and
      succeeds at the first run at least as long as the file. */
  function Fit(runs: seq<Run>, start: nat, size: int): (r: Option<nat>)
    ensures r.Some? ==> r.value < |runs| && size <= Size(runs[r.value]) && runs[r.value].lo <= start
  {
    if |runs| == 0 then None
    else
      var e := runs[|runs| - 1];
      if e.lo > start then None
      else if size <= Size(e) then Some(|runs| - 1)
      else Fit(runs[..|runs| - 1], start, size)
  }

  /** The run Fit picks is the leftmost free run that lies wholly left of
      the file and is long enough; when it picks none, no such run exists. */
  lemma FitIsLeftmost(m: seq<Block>, runs: seq<Run>, start: nat, size: int)
    requires RunsShape(m, runs) && start < |m| && m[start] != Free
    ensures Fit(runs, start, size).Some? ==>
      var r := Fit(runs, start, size).value;
      runs[r].hi < start && (forall q :: r < q < |runs| ==> Size(runs[q]) < size)
    ensures Fit(runs, start, size).None? ==>
      forall q :: 0 <= q < |runs| && runs[q].hi < start ==> Size(runs[q]) < size
  {
    forall q | 0 <= q < |runs|
      ensures runs[q].lo <= runs[q].hi && !InRun(runs[q], start)
    {
      assert IsFreeRun(m, runs[q]);
    }
    if Fit(runs, start, size).Some? {
      FitSome(runs, start, size);
    } else {
      FitNone(runs, start, size);
    }
  }

  /** Runs listed right to left, none of them covering cell start. */
  predicate Descending(runs: seq<Run>, start: nat) {
    (forall q :: 0 <= q < |runs| ==> runs[q].lo <= runs[q].hi && !InRun(runs[q], start)) &&
    forall r, s :: 0 <= r < s < |runs| ==> runs[s].hi < runs[r].lo
  }

  lemma {:induction false} FitSome(runs: seq<Run>, start: nat, size: int)
    requires Descending(runs, start) && Fit(runs, start, size).Some?
    ensures var r := Fit(runs, start, size).value;
      runs[r].hi < start && (forall q :: r < q < |runs| ==> Size(runs[q]) < size)
  {
    var n := |runs| - 1;
    var e := runs[n];
    if size > Size(e) {
      var init := runs[..n];
      assert Descending(init, start);
      FitSome(init, start, size);
      var r := Fit(init, start, size).value;
      assert Fit(runs, start, size) == Some(r);
      forall q | r < q < |runs|
        ensures Size(runs[q]) < size
      {
        if q < n {
          assert init[q] == runs[q];
        }
      }
    }
  }

  lemma {:induction false} FitNone(runs: seq<Run>, start: nat, size: int)
    requires Descending(runs, start) && Fit(runs, start, size).None?
    ensures forall q :: 0 <= q < |runs| && runs[q].hi < start ==> Size(runs[q]) < size
  {
    if |runs| > 0 {
      var n := |runs| - 1;
      var e := runs[n];
      if e.lo > start {
        forall q | 0 <= q < |runs|
          ensures runs[q].hi >= e.lo
        {
          if q < n {
            assert runs[n].hi < runs[q].lo;
          }
        }
      } else {
        var init := runs[..n];
        assert Descending(init, start);
        FitNone(init, start, size);
        forall q | 0 <= q < n
          ensures init[q] == runs[q]
        {
        }
      }
    }
  }

  /** The disk after t cells of a file have been moved one by one: cells
      lo .. lo + t - 1 hold the id, cells src .. src + t - 1 are free. */
  function Shifted(m: seq<Block>, id: nat, lo: nat, src: nat, t: nat): (r: seq<Block>)
    ensures |r| == |m|
  {
    seq(|m|, k requires 0 <= k < |m| =>
      if lo <= k < lo + t then File(id) else if src <= k < src + t then Free else m[k])
  }

  /** One more cell moved: exactly the two writes of the copy loop. */
  lemma ShiftStep(m: seq<Block>, id: nat, lo: nat, src: nat, t: nat)
    requires lo + t < src && src + t < |m|
    ensures Shifted(m, id, lo, src, t + 1) == Shifted(m, id, lo, src, t)[lo + t := File(id)][src + t := Free]
  {
  }

  /** n free cells at lo, and n cells of file id at src further right. */
  predicate Movable(m: seq<Block>, id: nat, lo: nat, src: nat, n: nat) {
    && lo + n <= src && src + n <= |m|
    && (forall k :: lo <= k < lo + n ==> m[k] == Free)
    && (forall k :: src <= k < src + n ==> m[k] == File(id))
  }

  /** Moving a file cell by cell into free cells to its left keeps every
      id and does not raise the checksum. */
  lemma {:induction false} ShiftKeeps(m: seq<Block>, id: nat, lo: nat, src: nat, n: nat, t: nat)
    requires Movable(m, id, lo, src, n) && t <= n
    ensures Ids(Shifted(m, id, lo, src, t)) == Ids(m)
    ensures Checksum(Shifted(m, id, lo, src, t)) <= Checksum(m)
  {
    if t == 0 {
      ShiftNone(m, id, lo, src);
    } else {
      var u: nat := t - 1;
      ShiftKeeps(m, id, lo, src, n, u);
      ShiftOne(m, id, lo, src, n, u);
    }
  }

  lemma ShiftNone(m: seq<Block>, id: nat, lo: nat, src: nat)
    ensures Shifted(m, id, lo, src, 0) == m
  {
  }

  lemma ShiftOne(m: seq<Block>, id: nat, lo: nat, src: nat, n: nat, t: nat)
    requires Movable(m, id, lo, src, n) && t < n
    ensures Ids(Shifted(m, id, lo, src, t + 1)) == Ids(Shifted(m, id, lo, src, t))
    ensures Checksum(Shifted(m, id, lo, src, t + 1)) <= Checksum(Shifted(m, id, lo, src, t))
  {
    var p := Shifted(m, id, lo, src, t);
    var i, j := lo + t, src + t;
    ShiftStep(m, id, lo, src, t);
    assert p[i] == Free && p[j] == File(id);
    MoveLeft(p, i, j);
    assert Shifted(m, id, lo, src, t + 1) == p[i := p[j]][j := Free];
  }

  /** The whole file f moved to start at lo. */
  function MoveFile(m: seq<Block>, f: FileBlock, lo: nat): seq<Block>
    requires f.lo <= f.hi
  {
    Shifted(m, f.id, lo, f.lo, FileSize(f))
  }

  /** The free list after n cells of run r are used: the run loses its n
      lowest cells and is dropped when none are left. */
  function Shrink(runs: seq<Run>, r: nat, n: nat): seq<Run>
    requires r < |runs|
  {
    if Size(runs[r]) <= n then runs[..r] + runs[r + 1..]
    else runs[r := Run(runs[r].hi, runs[r].lo + n)]
  }

  /** One file's turn in part 2: moved into the run Fit picks, or left. */
  function Place(m: seq<Block>, runs: seq<Run>, f: FileBlock): (seq<Block>, seq<Run>)
    requires f.lo <= f.hi
  {
    match Fit(runs, f.lo, FileSize(f))
    case None => (m, runs)
    case Some(r) => (MoveFile(m, f, runs[r].lo), Shrink(runs, r, FileSize(f)))
  }

  /** Disk, free list and file list agree with each other. */
  predicate Shaped(m: seq<Block>, runs: seq<Run>, blocks: seq<FileBlock>) {
    RunsShape(m, runs) && BlocksShape(m, blocks)
  }

  /** After a file's turn the lists still describe the disk, every id is
      kept and the checksum has not grown. */
  lemma PlaceKeepsShape(m: seq<Block>, runs: seq<Run>, blocks: seq<FileBlock>)
    requires Shaped(m, runs, blocks) && |blocks| > 0
    ensures var f := blocks[|blocks| - 1];
      var p := Place(m, runs, f);
      Shaped(p.0, p.1, blocks[..|blocks| - 1]) && |p.0| == |m| && Ids(p.0) == Ids(m) && Checksum(p.0) <= Checksum(m)
  {
    var f := blocks[|blocks| - 1];
    assert IsFileBlock(m, f);
    var rest := blocks[..|blocks| - 1];
    FitIsLeftmost(m, runs, f.lo, FileSize(f));
    match Fit(runs, f.lo, FileSize(f))
    case None =>
      assert BlocksShape(m, rest) by {
        forall b | 0 <= b < |rest|
          ensures IsFileBlock(m, rest[b])
        {
          assert rest[b] == blocks[b];
        }
      }
    case Some(r) =>
      var e := runs[r];
      var n := FileSize(f);
      assert IsFreeRun(m, e);
      assert Movable(m, f.id, e.lo, f.lo, n);
      ShiftKeeps(m, f.id, e.lo, f.lo, n, n);
      MovedRuns(m, runs, f, r);
      MovedBlocks(m, blocks, e.lo);
  }

  lemma MovedRuns(m: seq<Block>, runs: seq<Run>, f: FileBlock, r: nat)
    requires RunsShape(m, runs) && IsFileBlock(m, f)
    requires r < |runs| && FileSize(f) <= Size(runs[r]) && runs[r].hi < f.lo
    ensures RunsShape(MoveFile(m, f, runs[r].lo), Shrink(runs, r, FileSize(f)))
  {
    var e := runs[r];
    var n := FileSize(f);
    var m2 := MoveFile(m, f, e.lo);
    var rs := Shrink(runs, r, n);
    forall q | 0 <= q < |runs| && q != r
      ensures IsFreeRun(m2, runs[q])
    {
      assert IsFreeRun(m, runs[q]);
      if q < r {
        assert runs[r].hi < runs[q].lo;
      } else {
        assert runs[q].hi < runs[r].lo;
      }
      forall k | runs[q].lo <= k <= runs[q].hi
        ensures m2[k] == Free
      {
        assert m[k] == Free;
      }
    }
    if Size(e) <= n {
      forall q | 0 <= q < |rs|
        ensures IsFreeRun(m2, rs[q])
      {
        if q < r {
          assert rs[q] == runs[q];
        } else {
          assert rs[q] == runs[q + 1];
        }
      }
      forall a, b | 0 <= a < b < |rs|
        ensures rs[b].hi < rs[a].lo
      {
        var a' := if a < r then a else a + 1;
        var b' := if b < r then b else b + 1;
        assert rs[a] == runs[a'] && rs[b] == runs[b'];
      }
    } else {
      assert IsFreeRun(m, e);
      forall k | e.lo + n <= k <= e.hi
        ensures m2[k] == Free
      {
        assert m[k] == Free;
      }
      forall q | 0 <= q < |rs|
        ensures IsFreeRun(m2, rs[q])
      {
      }
    }
  }

  lemma MovedBlocks(m: seq<Block>, blocks: seq<FileBlock>, lo: nat)
    requires BlocksShape(m, blocks) && |blocks| > 0
    requires var f := blocks[|blocks| - 1];
      lo + FileSize(f) <= f.lo && forall k :: lo <= k < lo + FileSize(f) ==> m[k] == Free
    ensures BlocksShape(MoveFile(m, blocks[|blocks| - 1], lo), blocks[..|blocks| - 1])
  {
    var f := blocks[|blocks| - 1];
    var m2 := MoveFile(m, f, lo);
    var rest := blocks[..|blocks| - 1];
    forall b | 0 <= b < |rest|
      ensures IsFileBlock(m2, rest[b])
    {
      assert rest[b] == blocks[b];
      assert IsFileBlock(m, blocks[b]);
      assert blocks[b].hi < f.lo;
      forall k | rest[b].lo <= k <= rest[b].hi
        ensures m2[k] == m[k]
      {
        assert m[k] != Free;
      }
    }
  }

  /** Part 2's outer loop: the last file of the list is popped; if it
      starts left of the leftmost free run's top cell everything stops,
      otherwise it gets its turn. An empty free list makes
      `empty_mem_blocks.at(-1)[0]` a read of `undefined[0]`. */
  function MoveWholeFiles(m: seq<Block>, runs: seq<Run>, blocks: seq<FileBlock>): (r: Result<seq<Block>, JsError>)
    requires forall b :: 0 <= b < |blocks| ==> blocks[b].lo <= blocks[b].hi
    ensures |blocks| == 0 ==> r == Success(m)
    ensures |blocks| > 0 && |runs| == 0 ==> r == Failure(TypeError)
    ensures r.Failure? ==> r.error == TypeError
    decreases |blocks|
  {
    if |blocks| == 0 then Success(m)
    else if |runs| == 0 then Failure(TypeError)
    else
      var f := blocks[|blocks| - 1];
      if f.lo < runs[|runs| - 1].hi then Success(m)
      else
        var p := Place(m, runs, f);
        MoveWholeFiles(p.0, p.1, blocks[..|blocks| - 1])
  }

  /** Whole-file compaction keeps every id and never raises the checksum. */
  lemma {:induction false} MoveWholeFilesKeeps(m: seq<Block>, runs: seq<Run>, blocks: seq<FileBlock>)
    requires Shaped(m, runs, blocks)
    ensures var r := MoveWholeFiles(m, runs, blocks);
      r.Success? ==> |r.value| == |m| && Ids(r.value) == Ids(m) && Checksum(r.value) <= Checksum(m)
    decreases |blocks|
  {
    if |blocks| > 0 && |runs| > 0 {
      var f := blocks[|blocks| - 1];
      if f.lo >= runs[|runs| - 1].hi {
        PlaceKeepsShape(m, runs, blocks);
        var p := Place(m, runs, f);
        MoveWholeFilesKeeps(p.0, p.1, blocks[..|blocks| - 1]);
      }
    }
  }

  /** The free list read from the back, as a stack pops it. */
  function Reversed(s: seq<Run>): (r: seq<Run>)
    ensures |r| == |s|
  {
    if |s| == 0 then [] else [s[|s| - 1]] + Reversed(s[..|s| - 1])
  }

  /** The copy loop of part 2: `memory[e.pop()] = f[0]` writes the run's
      lowest cell, `memory[f[1][i]] = '.'` frees the file's i-th cell. */
  method CopyFile(memory: seq<Block>, f: FileBlock, lo: nat) returns (moved: seq<Block>)
    requires f.lo <= f.hi && Movable(memory, f.id, lo, f.lo, FileSize(f))
    ensures moved == MoveFile(memory, f, lo)
  {
    moved := memory;
    var i: nat := 0;
    while i < FileSize(f)
      invariant i <= FileSize(f)
      invariant moved == Shifted(memory, f.id, lo, f.lo, i)
    {
      ShiftStep(memory, f.id, lo, f.lo, i);
      moved := moved[lo + i := File(f.id)];
      moved := moved[f.lo + i := Free];
      i := i + 1;
    }
  }

  /** One file's turn, with the stack of inspected runs: runs are popped
      off the free list onto the stack until one starts right of the file
      or one is long enough; the file is copied into that one, which is
      thrown away if it is used up; then the stack is pushed back. */
  method PlaceFile(memory: seq<Block>, runs: seq<Run>, f: FileBlock) returns (moved: seq<Block>, free: seq<Run>)
    requires RunsShape(memory, runs) && IsFileBlock(memory, f)
    ensures (moved, free) == Place(memory, runs, f)
  {
    var n := FileSize(f);
    moved := memory;
    free := runs;
    var stack: seq<Run> := [];
    while |free| > 0
      invariant free + Reversed(stack) == runs
      invariant Fit(free, f.lo, n) == Fit(runs, f.lo, n)
      invariant moved == memory
    {
      var e := free[|free| - 1];
      PushStep(free, stack);
      free := free[..|free| - 1];
      stack := stack + [e];
      if e.lo > f.lo {
        break;
      }
      if n <= Size(e) {
        moved, stack := UseRun(memory, runs, f, free, stack);
        break;
      }
    }
    free := PushBack(free, stack);
  }

  /** The fitting run is on top of the stack: copy the file into it and
      drop it from the stack when it is used up. */
  method UseRun(memory: seq<Block>, runs: seq<Run>, f: FileBlock, free: seq<Run>, stack: seq<Run>)
    returns (moved: seq<Block>, stack2: seq<Run>)
    requires RunsShape(memory, runs) && IsFileBlock(memory, f)
    requires |stack| > 0 && free + Reversed(stack) == runs
    requires Fit(runs, f.lo, FileSize(f)) == Some(|free|)
    ensures moved == Place(memory, runs, f).0
    ensures free + Reversed(stack2) == Place(memory, runs, f).1
  {
    var n := FileSize(f);
    var r := |free|;
    var e := stack[|stack| - 1];
    PopStep(free, stack);
    assert runs[r] == e;
    FitIsLeftmost(memory, runs, f.lo, n);
    assert IsFreeRun(memory, e);
    assert Movable(memory, f.id, e.lo, f.lo, n);
    moved := CopyFile(memory, f, e.lo);
    var top := if Size(e) > n then [Run(e.hi, e.lo + n)] else [];
    ShrinkStep(runs, free, stack[..|stack| - 1], e, n);
    stack2 := stack[..|stack| - 1] + top;
  }

  /** `while (stack.length > 0) empty_mem_blocks.push(stack.pop())`. */
  method PushBack(free: seq<Run>, stack: seq<Run>) returns (free2: seq<Run>)
    ensures free2 == free + Reversed(stack)
  {
    free2 := free;
    var rest := stack;
    while |rest| > 0
      invariant free2 + Reversed(rest) == free + Reversed(stack)
    {
      PopStep(free2, rest);
      free2 := free2 + [rest[|rest| - 1]];
      rest := rest[..|rest| - 1];
    }
  }

  lemma PushStep(free: seq<Run>, stack: seq<Run>)
    requires |free| > 0
    ensures free[..|free| - 1] + Reversed(stack + [free[|free| - 1]]) == free + Reversed(stack)
  {
    var e := free[|free| - 1];
    assert (stack + [e])[..|stack|] == stack;
    assert free == free[..|free| - 1] + [e];
  }

  lemma PopStep(free: seq<Run>, stack: seq<Run>)
    requires |stack| > 0
    ensures free + [stack[|stack| - 1]] + Reversed(stack[..|stack| - 1]) == free + Reversed(stack)
  {
  }

  lemma ShrinkStep(runs: seq<Run>, free: seq<Run>, stack: seq<Run>, e: Run, n: int)
    requires free + [e] + Reversed(stack) == runs && 0 < n <= Size(e)
    ensures var top := if Size(e) > n then [Run(e.hi, e.lo + n)] else [];
      free + Reversed(stack + top) == Shrink(runs, |free|, n)
  {
    var r := |free|;
    assert runs[..r] == free && runs[r + 1..] == Reversed(stack) && runs[r] == e;
    if Size(e) > n {
      var e2 := Run(e.hi, e.lo + n);
      assert (stack + [e2])[..|stack|] == stack;
      assert Reversed(stack + [e2]) == [e2] + Reversed(stack);
      assert runs[r := e2] == free + [e2] + Reversed(stack);
    } else {
      assert stack + [] == stack;
      assert runs[..r] + runs[r + 1..] == free + Reversed(stack);
    }
  }

  /** Part 2's outer loop over the file list. */
  method MoveFiles(memory: seq<Block>, empty: seq<Run>, full: seq<FileBlock>) returns (r: Result<seq<Block>, JsError>)
    requires Shaped(memory, empty, full)
    ensures r == MoveWholeFiles(memory, empty, full)
  {
    var m, runs, blocks := memory, empty, full;
    while |blocks| > 0
      invariant Shaped(m, runs, blocks)
      invariant MoveWholeFiles(m, runs, blocks) == MoveWholeFiles(memory, empty, full)
    {
      var f := blocks[|blocks| - 1];
      if |runs| == 0 {
        return Failure(TypeError);
      }
      if f.lo < runs[|runs| - 1].hi {
        break;
      }
      PlaceKeepsShape(m, runs, blocks);
      assert IsFileBlock(m, f);
      m, runs := PlaceFile(m, runs, f);
      blocks := blocks[..|blocks| - 1];
    }
    return Success(m);
  }

  /** The rule part 2 follows, without the early exit: every file on the
      list, last first, gets exactly one turn. */
  function Compact(m: seq<Block>, runs: seq<Run>, blocks: seq<FileBlock>): (r: seq<Block>)
    requires forall b :: 0 <= b < |blocks| ==> blocks[b].lo <= blocks[b].hi
    decreases |blocks|
  {
    if |blocks| == 0 then m
    else
      var p := Place(m, runs, blocks[|blocks| - 1]);
      Compact(p.0, p.1, blocks[..|blocks| - 1])
  }

  /** The early exit of the outer loop loses nothing: whenever the loop
      finishes, it has produced what giving every file its turn produces. */
  lemma {:induction false} EarlyExitIsSafe(m: seq<Block>, runs: seq<Run>, blocks: seq<FileBlock>)
    requires Shaped(m, runs, blocks)
    ensures MoveWholeFiles(m, runs, blocks).Success? ==> MoveWholeFiles(m, runs, blocks).value == Compact(m, runs, blocks)
    decreases |blocks|
  {
    if |blocks| > 0 && |runs| > 0 {
      var f := blocks[|blocks| - 1];
      if f.lo < runs[|runs| - 1].hi {
        StaysPut(m, runs, blocks);
      } else {
        PlaceKeepsShape(m, runs, blocks);
        var p := Place(m, runs, f);
        EarlyExitIsSafe(p.0, p.1, blocks[..|blocks| - 1]);
      }
    }
  }

  /** Files that all start left of the leftmost free run's top cell start
      left of the whole run, so none of them moves. */
  lemma {:induction false} StaysPut(m: seq<Block>, runs: seq<Run>, blocks: seq<FileBlock>)
    requires Shaped(m, runs, blocks) && |blocks| > 0 && |runs| > 0
    requires blocks[|blocks| - 1].lo < runs[|runs| - 1].hi
    ensures Compact(m, runs, blocks) == m
    decreases |blocks|
  {
    var f := blocks[|blocks| - 1];
    var e := runs[|runs| - 1];
    assert IsFileBlock(m, f) && IsFreeRun(m, e);
    assert f.lo < e.lo by {
      assert m[f.lo] != Free;
    }
    assert Fit(runs, f.lo, FileSize(f)) == None;
    var rest := blocks[..|blocks| - 1];
    if |rest| > 0 {
      assert BlocksShape(m, rest) by {
        forall b | 0 <= b < |rest|
          ensures IsFileBlock(m, rest[b])
        {
          assert rest[b] == blocks[b];
        }
      }
      assert rest[|rest| - 1].lo < f.lo;
      StaysPut(m, runs, rest);
    }
  }

  /** Part 1 from the puzzle input: parse, expand, compact block by block,
      checksum. */
  method SolvePart1(input: string) returns (answer: nat)
    ensures var l := Layout(ParseInput(input));
      answer == Checksum(if |l| > 0 && l[|l| - 1] == Free then l else BlockCompact(l))
    ensures answer <= Checksum(Layout(ParseInput(input)))
  {
    var data := ParseInput(input);
    var files := ExpandData(data);
    LayoutShape(data);
    var compacted, _ := CompactBlocks(files);
    answer := ChecksumOf(compacted);
  }

  /** Part 2 from the puzzle input: parse, expand, list runs and files,
      compact file by file, checksum. A disk of two or more cells with no
      free cell has a listed file and an empty free list, so it fails. */
  method SolvePart2(input: string) returns (r: Result<nat, JsError>)
    ensures r.Success? ==> r.value <= Checksum(Layout(ParseInput(input)))
    ensures var l := Layout(ParseInput(input));
      r.Success? ==> exists runs, blocks ::
        FreeList(l, runs) && FileList(l, blocks) && r.value == Checksum(Compact(l, runs, blocks))
    ensures r.Failure? ==> r.error == TypeError
    ensures var l := Layout(ParseInput(input));
      |l| >= 2 && Free !in l ==> r == Failure(TypeError)
  {
    var data := ParseInput(input);
    var files := ExpandData(data);
    LayoutShape(data);
    var empty := FreeRuns(files);
    var full := FileBlocks(files);
    MoveWholeFilesKeeps(files, empty, full);
    if |empty| > 0 {
      RunsNeedFree(files, empty);
    }
    if |files| >= 2 && Free !in files {
      assert files[0].File? && !StartsAtEnd(files, 0);
    }
    var moved := MoveFiles(files, empty, full);
    EarlyExitIsSafe(files, empty, full);
    match moved
    case Failure(e) =>
      r := Failure(e);
    case Success(m) =>
      var a := ChecksumOf(m);
      r := Success(a);
      assert FreeList(files, empty) && FileList(files, full);
  }

  /** The free list `shapeData` builds: maximal free runs, right to left,
      covering every free cell. */
  ghost predicate FreeList(m: seq<Block>, runs: seq<Run>) {
    && RunsShape(m, runs)
    && (forall r :: 0 <= r < |runs| ==> MaximalRun(m, runs[r]))
    && (forall k :: 0 <= k < |m| && m[k] == Free ==> exists r :: 0 <= r < |runs| && InRun(runs[r], k))
  }

  /** The file list `shapeData` builds: maximal file stretches, left to
      right, leaving out a file that starts in the last cell. */
  ghost predicate FileList(m: seq<Block>, blocks: seq<FileBlock>) {
    && BlocksShape(m, blocks)
    && (forall b :: 0 <= b < |blocks| ==> MaximalBlock(m, blocks[b]) && blocks[b].lo < |m| - 1)
    && (forall k :: 0 <= k < |m| && m[k].File? ==>
         (StartsAtEnd(m, k) <==> !exists b :: 0 <= b < |blocks| && InBlock(blocks[b], k)))
  }

  /** A free list is only ever non-empty on a disk with a free cell. */
  lemma RunsNeedFree(m: seq<Block>, runs: seq<Run>)
    requires RunsShape(m, runs) && |runs| > 0
    ensures Free in m
  {
    assert IsFreeRun(m, runs[0]);
    assert m[runs[0].lo] == Free;
  }

  /** A map whose digits leave no gap, such as "101", lays out a disk with
      no free cell. */
  lemma NoGapLayout()
    ensures Layout(ParseInput("101")) == [File(0), File(1)]
  {
    var d := ParseInput("101");
    assert d == [Some(1), Some(0), Some(1)];
    assert d[..2][..1] == [Some(1)];
    assert Layout([Some(1)]) == [File(0)];
    assert Layout(d[..2]) == [File(0)];
    assert Chunk(2, Some(1)) == [File(1)];
  }
}
