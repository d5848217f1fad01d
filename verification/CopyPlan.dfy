/** How a multipart copy cuts the source objects into numbered parts. */
module CopyPlan {

  const FILE_SIZE_CUTOFF: nat := 100 * 1024 * 1024
  const FILE_SIZE_MID_POINT: nat := 10 * 1024 * 1024 * 1024
  const SMALL_CHUNK: nat := 25 * 1024 * 1024
  const BIG_CHUNK: nat := 100 * 1024 * 1024

  type Bytes = seq<bv8>

  datatype Source = Source(key: string, bytes: Bytes)

  datatype Extent = All | Range(first: nat, last: nat)

  /** One part to copy: its number, the position of its source object, and the bytes of it. */
  datatype Part = Part(number: nat, obj: nat, extent: Extent)

  /** The last byte of the range that starts at start, and whether it ends the object. */
  function CopyRange(start: nat, partSize: nat, size: nat): (r: (bool, int))
    requires partSize > 0
  {
    var end := start + partSize - 1;
    if end >= size || size - end < partSize then (true, size - 1) else (false, end)
  }

  /** The ranges the producer sends for one object, from byte start on. */
  function Ranges(start: nat, partSize: nat, size: nat): seq<(nat, nat)>
    requires partSize > 0
    decreases size - start
  {
    if start >= size then []
    else
      var (last, end) := CopyRange(start, partSize, size);
      [(start, end)] + if last then [] else Ranges(start + partSize, partSize, size)
  }

  // ---------- Tiling and counting ----------

  ghost predicate Tiles(r: seq<(nat, nat)>, start: nat, size: nat, partSize: nat) {
    && r != [] && r[0].0 == start && r[|r| - 1].1 == size - 1
    && (forall k | 0 <= k < |r| :: r[k].0 <= r[k].1 < size)
    && (forall k | 0 <= k < |r| - 1 :: r[k + 1].0 == r[k].1 + 1)
    && (forall k | 0 <= k < |r| - 1 :: r[k].1 - r[k].0 + 1 == partSize)
  }

  lemma TilesCons(start: nat, partSize: nat, size: nat, rest: seq<(nat, nat)>)
    requires partSize > 0 && start + partSize < size && Tiles(rest, start + partSize, size, partSize)
    ensures Tiles([(start, start + partSize - 1)] + rest, start, size, partSize)
  {
    var r := [(start, start + partSize - 1)] + rest;
    assert forall k | 1 <= k < |r| :: r[k] == rest[k - 1];
  }

  lemma TilesOne(start: nat, partSize: nat, size: nat)
    requires start < size
    ensures Tiles([(start, size - 1)], start, size, partSize)
  {}

  /** For every object and part size the ranges tile the object, and all but the last have the part size. */
  lemma {:induction false} RangesTile(start: nat, partSize: nat, size: nat)
    requires partSize > 0 && start < size
    ensures Tiles(Ranges(start, partSize, size), start, size, partSize)
    decreases size - start
  {
    hide Tiles;
    var r := Ranges(start, partSize, size);
    if CopyRange(start, partSize, size).0 {
      assert r == [(start, size - 1)];
      TilesOne(start, partSize, size);
    } else if start + partSize == size {
      assert r == [(start, size - 1)] + Ranges(size, partSize, size) && Ranges(size, partSize, size) == [];
      assert r == [(start, size - 1)];
      TilesOne(start, partSize, size);
    } else {
      RangesTile(start + partSize, partSize, size);
      TilesCons(start, partSize, size, Ranges(start + partSize, partSize, size));
    }
  }

  lemma MulMono(a: nat, b: nat, p: nat)
    ensures a <= b ==> a * p <= b * p
  {}

  /** What is left decides: less than two part sizes (and one byte) is the last part. */
  lemma LastIff(start: nat, partSize: nat, size: nat)
    requires partSize > 0 && start < size
    ensures CopyRange(start, partSize, size).0 <==> size - start + 1 < 2 * partSize
  {}

  lemma RangesUnfold(start: nat, partSize: nat, size: nat)
    requires partSize > 0 && start < size
    ensures |Ranges(start, partSize, size)|
         == if size - start + 1 < 2 * partSize then 1 else 1 + |Ranges(start + partSize, partSize, size)|
  {
    LastIff(start, partSize, size);
  }

  /** With m full part sizes left and a remainder below the part size: m parts, or one more when the
      remainder is one byte short of a part. */
  lemma {:induction false} RangeCount(start: nat, partSize: nat, size: nat, m: nat, r: nat)
    requires partSize > 1 && size == start + m * partSize + r && r < partSize && m > 0
    ensures |Ranges(start, partSize, size)| == if r + 1 < partSize then m else m + 1
    decreases m
  {
    hide Ranges;
    var left := (m - 1) * partSize;
    assert m * partSize == left + partSize;
    RangesUnfold(start, partSize, size);
    if m > 1 {
      MulMono(1, m - 1, partSize);
      RangeCount(start + partSize, partSize, size, m - 1, r);
    } else if r + 1 == partSize {
      RangesUnfold(start + partSize, partSize, size);
    }
  }

  /** The part size the producer picks for an object above the cutoff. */
  function PartSize(size: nat, chunk: nat): (p: nat)
    requires 0 < chunk <= size
    ensures p >= chunk
  {
    var n := size / chunk;
    Quotient(size, chunk);
    Commute(n, chunk);
    AtLeast(size, n, chunk);
    size / n
  }

  lemma PartSizeBounds(size: nat, chunk: nat, n: nat, p: nat)
    requires 0 < chunk <= size && n == size / chunk && p == PartSize(size, chunk)
    ensures n > 0 && p * n <= size < (p + 1) * n
  {
    Quotient(size, chunk);
    Quotient(size, n);
  }

  lemma Quotient(a: nat, b: nat)
    requires 0 < b
    ensures (a / b) * b <= a < (a / b + 1) * b
    ensures b <= a ==> a / b >= 1
  {}

  lemma AtLeast(size: nat, n: nat, chunk: nat)
    requires n > 0 && chunk * n <= size
    ensures size / n >= chunk
  {
    Quotient(size, n);
    MulMono(size / n + 1, chunk, n);
  }

  lemma Commute(a: nat, b: nat)
    ensures a * b == b * a
  {}

  lemma SameQuotient(size: nat, n: nat, p: nat, left: nat)
    requires p > 0 && size == n * p + left && left < p
    ensures size / p == n && size % p == left
  {
    var m := size / p;
    Quotient(size, p);
    MulMono(m + 1, n, p);
    MulMono(n + 1, m, p);
    assert (n + 1) * p == n * p + p;
  }

  lemma MoreParts(size: nat, n: nat, p: nat)
    requires p > 0 && (n + 1) * p <= size
    ensures size / p > n
  {
    Quotient(size, p);
    MulMono(size / p + 1, n + 1, p);
  }

  lemma DivMod(size: nat, p: nat)
    requires p > 0
    ensures size == (size / p) * p + size % p && size % p < p
  {}

  /** The number of parts is exactly the number of chunks if and only if the remainder leaves room. */
  lemma PartCountIff(size: nat, chunk: nat, n: nat, p: nat)
    requires 1 < chunk <= size && n == size / chunk && p == PartSize(size, chunk)
    ensures |Ranges(0, p, size)| == n <==> size - n * p + 1 < p
  {
    hide Ranges;
    PartSizeBounds(size, chunk, n, p);
    DivMod(size, p);
    Commute(n, p);
    var m, r, left := size / p, size % p, size - n * p;
    if left < p {
      SameQuotient(size, n, p, left);
    } else {
      assert (n + 1) * p == n * p + p;
      MoreParts(size, n, p);
    }
    RangeCount(0, p, size, m, r);
  }

  /** The input on which the count is off, for every chunk size: one byte short of a further chunk. */
  lemma PartCountFails(chunk: nat, size: nat)
    requires chunk > 1 && size == chunk * chunk + chunk - 1
    ensures |Ranges(0, PartSize(size, chunk), size)| != size / chunk
  {
    hide Ranges;
    SameQuotient(size, chunk, chunk, chunk - 1);
    PartCountIff(size, chunk, chunk, PartSize(size, chunk));
  }

  lemma BelowSquare(size: nat, chunk: nat, n: nat)
    requires n * chunk <= size < chunk * chunk
    ensures n < chunk
  {
    MulMono(chunk, n, chunk);
  }

  lemma PartNumbers(size: nat, chunk: nat, n: nat, p: nat, whole: nat)
    requires 1 < chunk <= size < chunk * chunk && n == size / chunk && p == PartSize(size, chunk) && whole == n * p
    ensures 0 < n < chunk <= p && whole <= size < whole + n && (n - 1) * p == whole - p
  {
    Quotient(size, chunk);
    PartSizeBounds(size, chunk, n, p);
    BelowSquare(size, chunk, n);
    Commute(n, p);
    Commute(n, p + 1);
    assert n * (p + 1) == whole + n;
    assert (n - 1) * p == whole - p;
  }

  /** Below chunk squared: exactly floor(size/chunk) parts, each of at least chunk bytes, and the last exceeds
      the others by less than the number of parts. */
  lemma PartsBelowChunkSquared(size: nat, chunk: nat, n: nat, p: nat)
    requires 1 < chunk <= size < chunk * chunk && n == size / chunk && p == PartSize(size, chunk)
    ensures var r := Ranges(0, p, size);
            && |r| == n > 0 && Tiles(r, 0, size, p)
            && (forall k | 0 <= k < n :: r[k].1 - r[k].0 + 1 >= chunk)
            && p <= r[n - 1].1 - r[n - 1].0 + 1 < p + n
  {
    hide Ranges;
    hide PartSize;
    PartNumbers(size, chunk, n, p, n * p);
    PartCountIff(size, chunk, n, p);
    RangesTile(0, p, size);
    TiledLengths(Ranges(0, p, size), size, p, n, n * p, chunk);
  }

  lemma TiledLengths(r: seq<(nat, nat)>, size: nat, p: nat, n: nat, whole: nat, chunk: nat)
    requires Tiles(r, 0, size, p) && |r| == n && chunk <= p
    requires whole <= size < whole + n && (n - 1) * p == whole - p
    ensures forall k | 0 <= k < n :: r[k].1 - r[k].0 + 1 >= chunk
    ensures p <= r[n - 1].1 - r[n - 1].0 + 1 < p + n
  {
    StartOf(r, size, p, n - 1);
  }

  lemma {:induction false} StartOf(r: seq<(nat, nat)>, size: nat, partSize: nat, k: nat)
    requires Tiles(r, 0, size, partSize) && k < |r|
    ensures r[k].0 == k * partSize
  {
    if k > 0 {
      StartOf(r, size, partSize, k - 1);
      assert r[k - 1 + 1].0 == r[k - 1].1 + 1;
      assert k * partSize == (k - 1) * partSize + partSize;
    }
  }

  // ---------- The plan of a whole copy ----------

  /** The extents of one object: the object as a whole, or ranges of about one chunk. */
  function Extents(size: nat): seq<Extent> {
    if size > FILE_SIZE_MID_POINT then RangeExtents(Ranges(0, PartSize(size, BIG_CHUNK), size))
    else if size > FILE_SIZE_CUTOFF then RangeExtents(Ranges(0, PartSize(size, SMALL_CHUNK), size))
    else [All]
  }

  /** With the chunk sizes in use, every object above 100 MiB and below 10,000 TiB is cut
      into as many parts as it holds chunks: of 100 MiB above 10 GiB, of 25 MiB below. */
  lemma ExtentCount(size: nat)
    requires 104857600 < size < 104857600 * 104857600
    ensures |Extents(size)| == size / (if size > 10737418240 then 104857600 else 26214400)
  {
    hide Ranges;
    hide PartSize;
    var chunk := if size > FILE_SIZE_MID_POINT then BIG_CHUNK else SMALL_CHUNK;
    PartsBelowChunkSquared(size, chunk, size / chunk, PartSize(size, chunk));
  }

  /** Objects of up to 100 MiB are copied whole, larger ones in ranges. */
  lemma WholeUpToCutoff(size: nat)
    ensures Extents(size) == [All] <==> size <= 104857600
  {
    hide Ranges;
    hide PartSize;
    if size > 104857600 {
      var es := Extents(size);
      assert |es| > 0 ==> es[0].Range?;
    }
  }

  function RangeExtents(r: seq<(nat, nat)>): (es: seq<Extent>)
    ensures |es| == |r| && forall k | 0 <= k < |r| :: es[k] == Range(r[k].0, r[k].1)
  {
    seq(|r|, k requires 0 <= k < |r| => Range(r[k].0, r[k].1))
  }

  function Number(obj: nat, first: nat, es: seq<Extent>): (ps: seq<Part>)
    ensures |ps| == |es| && forall k | 0 <= k < |es| :: ps[k] == Part(first + k, obj, es[k])
  {
    seq(|es|, k requires 0 <= k < |es| => Part(first + k, obj, es[k]))
  }

  /** All parts, numbered from 1, objects in the order given. */
  function Plan(objs: seq<Source>): (ps: seq<Part>)
    ensures forall k | 0 <= k < |ps| :: ps[k].number == k + 1 && ps[k].obj < |objs|
  {
    if objs == [] then []
    else
      var front := Plan(objs[..|objs| - 1]);
      front + Number(|objs| - 1, |front| + 1, Extents(|objs[|objs| - 1].bytes|))
  }

  function ExtentBytes(b: Bytes, e: Extent): Bytes {
    match e
    case All => b
    case Range(first, last) => if first <= last < |b| then b[first..last + 1] else []
  }

  function PartBytes(objs: seq<Source>, p: Part): Bytes {
    if p.obj < |objs| then ExtentBytes(objs[p.obj].bytes, p.extent) else []
  }

  /** What the destination holds once the parts are put together in the order given. */
  function Assembled(objs: seq<Source>, ps: seq<Part>): Bytes {
    if ps == [] then [] else Assembled(objs, ps[..|ps| - 1]) + PartBytes(objs, ps[|ps| - 1])
  }

  function Concatenated(objs: seq<Source>): Bytes {
    if objs == [] then [] else Concatenated(objs[..|objs| - 1]) + objs[|objs| - 1].bytes
  }

  lemma AssembledOne(objs: seq<Source>, ps: seq<Part>, p: Part)
    ensures Assembled(objs, ps + [p]) == Assembled(objs, ps) + PartBytes(objs, p)
  {
    hide PartBytes;
    assert (ps + [p])[..|ps|] == ps;
  }

  lemma NothingAssembled(objs: seq<Source>)
    ensures Assembled(objs, []) == []
  {}

  lemma {:induction false} AssembledAppend(objs: seq<Source>, a: seq<Part>, b: seq<Part>)
    ensures Assembled(objs, a + b) == Assembled(objs, a) + Assembled(objs, b)
  {
    hide Assembled;
    hide PartBytes;
    if b == [] {
      NothingAssembled(objs);
      assert a + b == a && Assembled(objs, a) + [] == Assembled(objs, a);
    } else {
      var front, p := b[..|b| - 1], b[|b| - 1];
      AssembledAppend(objs, a, front);
      assert a + b == (a + front) + [p] && b == front + [p];
      AssembledOne(objs, a + front, p);
      AssembledOne(objs, front, p);
      assert (Assembled(objs, a) + Assembled(objs, front)) + PartBytes(objs, p)
          == Assembled(objs, a) + (Assembled(objs, front) + PartBytes(objs, p));
    }
  }

  lemma {:induction false} AssembledIgnoresLater(objs: seq<Source>, objs': seq<Source>, ps: seq<Part>)
    requires objs <= objs' && forall p | p in ps :: p.obj < |objs|
    ensures Assembled(objs', ps) == Assembled(objs, ps)
  {
    if ps != [] {
      assert ps[|ps| - 1] in ps;
      AssembledIgnoresLater(objs, objs', ps[..|ps| - 1]);
    }
  }

  lemma {:induction false} RangesAssemble(objs: seq<Source>, obj: nat, first: nat, r: seq<(nat, nat)>, k: nat,
                                          partSize: nat)
    requires obj < |objs| && k <= |r| && Tiles(r, 0, |objs[obj].bytes|, partSize)
    ensures Assembled(objs, Number(obj, first, RangeExtents(r))[..k])
         == objs[obj].bytes[..if k == 0 then 0 else r[k - 1].1 + 1]
  {
    hide Assembled;
    hide Number;
    hide RangeExtents;
    var ps, b := Number(obj, first, RangeExtents(r)), objs[obj].bytes;
    if k == 0 {
      NothingAssembled(objs);
      assert ps[..0] == [];
    } else {
      RangesAssemble(objs, obj, first, r, k - 1, partSize);
      var from, to := r[k - 1].0, r[k - 1].1 + 1;
      assert ps[..k] == ps[..k - 1] + [ps[k - 1]];
      AssembledOne(objs, ps[..k - 1], ps[k - 1]);
      assert PartBytes(objs, ps[k - 1]) == b[from..to];
      assert k > 1 ==> r[k - 2 + 1].0 == r[k - 2].1 + 1;
      assert b[..from] + b[from..to] == b[..to];
    }
  }

  lemma RangedObjectAssembles(objs: seq<Source>, obj: nat, first: nat, p: nat)
    requires obj < |objs| && p > 0 && objs[obj].bytes != []
    ensures Assembled(objs, Number(obj, first, RangeExtents(Ranges(0, p, |objs[obj].bytes|)))) == objs[obj].bytes
  {
    hide Ranges;
    hide Assembled;
    hide Number;
    hide RangeExtents;
    var b := objs[obj].bytes;
    var r := Ranges(0, p, |b|);
    RangesTile(0, p, |b|);
    RangesAssemble(objs, obj, first, r, |r|, p);
    var ps := Number(obj, first, RangeExtents(r));
    assert ps[..|r|] == ps && b[..|b|] == b;
  }

  /** The parts of one object put its bytes back together. */
  lemma ObjectAssembles(objs: seq<Source>, obj: nat, first: nat)
    requires obj < |objs|
    ensures Assembled(objs, Number(obj, first, Extents(|objs[obj].bytes|))) == objs[obj].bytes
  {
    hide Ranges;
    hide Assembled;
    hide Number;
    hide RangeExtents;
    hide PartSize;
    var size := |objs[obj].bytes|;
    if size > FILE_SIZE_MID_POINT {
      RangedObjectAssembles(objs, obj, first, PartSize(size, BIG_CHUNK));
    } else if size > FILE_SIZE_CUTOFF {
      RangedObjectAssembles(objs, obj, first, PartSize(size, SMALL_CHUNK));
    } else {
      assert Number(obj, first, [All]) == [] + [Part(first, obj, All)];
      AssembledOne(objs, [], Part(first, obj, All));
      NothingAssembled(objs);
    }
  }

  /** The whole plan denotes the concatenation of the objects. */
  lemma {:induction false} PlanAssembles(objs: seq<Source>)
    ensures Assembled(objs, Plan(objs)) == Concatenated(objs)
  {
    hide Extents;
    if objs != [] {
      var m := |objs| - 1;
      var front, fp := objs[..m], Plan(objs[..m]);
      var mine := Number(m, |fp| + 1, Extents(|objs[m].bytes|));
      PlanAssembles(front);
      AssembledIgnoresLater(front, objs, fp);
      ObjectAssembles(objs, m, |fp| + 1);
      AssembledAppend(objs, fp, mine);
    }
  }

  lemma PlanAppend(objs: seq<Source>, i: nat)
    requires i < |objs|
    ensures Plan(objs[..i + 1])
         == Plan(objs[..i]) + Number(i, |Plan(objs[..i])| + 1, Extents(|objs[i].bytes|))
  {
    hide Extents;
    assert objs[..i + 1][..i] == objs[..i];
  }

  lemma NumberAppend(obj: nat, first: nat, r: seq<(nat, nat)>, x: (nat, nat))
    ensures Number(obj, first, RangeExtents(r + [x]))
         == Number(obj, first, RangeExtents(r)) + [Part(first + |r|, obj, Range(x.0, x.1))]
  {}

  lemma RangesStep(start: nat, partSize: nat, size: nat)
    requires partSize > 0 && start < size
    ensures 0 <= CopyRange(start, partSize, size).1
    ensures var (last, end) := CopyRange(start, partSize, size);
            Ranges(start, partSize, size)
              == [(start, end as nat)] + if last then [] else Ranges(start + partSize, partSize, size)
  {}

  /** The producer as it runs: one counter for the part numbers across all objects. */
  method ProduceParts(objs: seq<Source>) returns (tasks: seq<Part>)
    ensures tasks == Plan(objs)
  {
    hide Plan;
    hide Ranges;
    hide Number;
    hide RangeExtents;
    hide PartSize;
    tasks := [];
    var partNumber := 1;
    assert objs[..0] == [];
    NothingPlanned();
    for iobj := 0 to |objs|
      invariant tasks == Plan(objs[..iobj]) && partNumber == |tasks| + 1
    {
      PlanAppend(objs, iobj);
      var size := |objs[iobj].bytes|;
      if size > FILE_SIZE_CUTOFF {
        var partSize := PartSize(size, if size > FILE_SIZE_MID_POINT then BIG_CHUNK else SMALL_CHUNK);
        tasks, partNumber := ProduceRanges(tasks, partNumber, iobj, partSize, size);
      } else {
        assert Number(iobj, partNumber, [All]) == [Part(partNumber, iobj, All)];
        tasks := tasks + [Part(partNumber, iobj, All)];
        partNumber := partNumber + 1;
      }
    }
    assert objs[..|objs|] == objs;
  }

  lemma NothingPlanned()
    ensures Plan([]) == []
  {}

  /** The queue once the given ranges of one object have been sent. */
  function Queue(before: seq<Part>, first: nat, obj: nat, r: seq<(nat, nat)>): seq<Part> {
    before + Number(obj, first, RangeExtents(r))
  }

  lemma QueueAppend(before: seq<Part>, first: nat, obj: nat, r: seq<(nat, nat)>, x: (nat, nat))
    ensures Queue(before, first, obj, r + [x])
         == Queue(before, first, obj, r) + [Part(first + |r|, obj, Range(x.0, x.1))]
  {
    hide Number;
    NumberAppend(obj, first, r, x);
  }

  lemma QueueNothing(before: seq<Part>, first: nat, obj: nat)
    ensures Queue(before, first, obj, []) == before
  {}

  lemma MoveHead<T>(a: seq<T>, b: seq<T>)
    requires b != []
    ensures a + [b[0]] + b[1..] == a + b
  {}

  method ProduceRanges(before: seq<Part>, first: nat, obj: nat, partSize: nat, size: nat)
    returns (tasks: seq<Part>, partNumber: nat)
    requires partSize > 0
    ensures tasks == Queue(before, first, obj, Ranges(0, partSize, size))
    ensures partNumber == first + |Ranges(0, partSize, size)|
  {
    hide Queue;
    hide Ranges;
    hide CopyRange;
    QueueNothing(before, first, obj);
    tasks, partNumber := before, first;
    ghost var sent: seq<(nat, nat)> := [];
    ghost var todo := Ranges(0, partSize, size);
    var i, isLastPart := 0, false;
    while i < size && !isLastPart
      invariant todo == if isLastPart then [] else Ranges(i, partSize, size)
      invariant sent + todo == Ranges(0, partSize, size)
      invariant tasks == Queue(before, first, obj, sent) && partNumber == first + |sent|
      decreases size - i, !isLastPart
    {
      RangesStep(i, partSize, size);
      var (last, end) := CopyRange(i, partSize, size);
      QueueAppend(before, first, obj, sent, (i, end as nat));
      MoveHead(sent, todo);
      tasks := tasks + [Part(partNumber, obj, Range(i, end))];
      partNumber := partNumber + 1;
      sent, todo := sent + [(i, end as nat)], todo[1..];
      isLastPart := last;
      if !last {
        i := i + partSize;
      }
    }
    RangesDone(i, partSize, size);
    assert sent + [] == sent;
  }

  lemma RangesDone(start: nat, partSize: nat, size: nat)
    requires partSize > 0
    ensures start >= size ==> Ranges(start, partSize, size) == []
  {}
}
