/**
 * The memory-mapped vector store. A shared mapping is the file: a `StoreFile` holds the header and
 * the extents, a `VectorStore` the volatile count and how many segments it has mapped. The store
 * refines an append-only sequence of rows.
 */
module Store {
  import opened Common
  import opened Bytes
  import opened Segments

  /** `ROW_ALIGN`, in 32-bit words. */
  const ALIGN_WORDS: nat := 16

  /** Header fields and segment extents. `strideWords` counts 32-bit words. */
  class StoreFile {
    var dim: nat
    var strideWords: nat
    var count: nat
    var segments: seq<array<Word>>

    constructor (dim: nat, strideWords: nat, count: nat, segments: seq<array<Word>>)
      ensures this.dim == dim && this.strideWords == strideWords
      ensures this.count == count && this.segments == segments
    {
      this.dim, this.strideWords, this.count, this.segments := dim, strideWords, count, segments;
    }

    /** Whole segments of the size the stride calls for, no two sharing storage. */
    ghost predicate Sized() reads this, segments {
      && (forall k | 0 <= k < |segments| :: segments[k].Length == SegRows(k) * strideWords)
      && (forall j, k | 0 <= j < k < |segments| :: segments[j] != segments[k])
    }

    /** And a stride that holds a row. */
    ghost predicate Shaped() reads this, segments {
      0 < dim <= strideWords && Sized()
    }

    /** Row `id` of the file. */
    function Row(id: nat): (v: Vector)
      requires Shaped() && id < SegStart(|segments|)
      reads this, segments
      ensures |v| == dim
    {
      var (seg, off) := Locate(id);
      LocateInside(id);
      SegmentsBelow(id, |segments|);
      RowInside(off, SegRows(seg), strideWords, dim);
      segments[seg][off * strideWords..off * strideWords + dim]
    }

    /** The first `n` rows. */
    function Rows(n: nat): (r: seq<Vector>)
      requires Shaped() && n <= SegStart(|segments|)
      reads this, segments
      ensures |r| == n && forall i | 0 <= i < n :: r[i] == Row(i)
    {
      seq(n, i requires 0 <= i < n && Shaped() && n <= SegStart(|segments|) reads this, segments => Row(i))
    }
  }

  lemma RowInside(off: int, rows: nat, stride: nat, dim: nat)
    requires 0 <= off < rows && dim <= stride
    ensures 0 <= off * stride && off * stride + dim <= rows * stride
  {
    assert off * stride + stride == (off + 1) * stride;
    assert (off + 1) * stride <= rows * stride;
  }

  lemma RowsApart(a: int, b: int, stride: nat, dim: nat)
    requires 0 <= a < b && dim <= stride
    ensures a * stride + dim <= b * stride
  {
    assert a * stride + stride == (a + 1) * stride;
    assert (a + 1) * stride <= b * stride;
  }

  class VectorStore {
    const file: StoreFile
    const dim: nat
    const strideWords: nat
    var mapped: nat
    var count: nat

    constructor (file: StoreFile, dim: nat, strideWords: nat, mapped: nat, count: nat)
      ensures this.file == file && this.dim == dim && this.strideWords == strideWords
      ensures this.mapped == mapped && this.count == count
    {
      this.file, this.dim, this.strideWords := file, dim, strideWords;
      this.mapped, this.count := mapped, count;
    }

    ghost predicate Valid() reads this, file, file.segments {
      && file.Shaped() && file.dim == dim && file.strideWords == strideWords
      && mapped <= |file.segments| && mapped <= MAX_SEGMENTS
      && (forall k | 0 <= k < mapped :: SegFits(k, 4 * strideWords))
      && count <= SegStart(mapped) <= SegStart(|file.segments|)
    }

    /** The append-only sequence this store stands for. */
    function Rows(): seq<Vector>
      requires Valid()
      reads this, file, file.segments
    {
      file.Rows(count)
    }

    /** The header's geometry is consistent and the file holds every segment it calls for. */
    static ghost predicate Openable(file: StoreFile) reads file {
      && 0 < file.dim <= file.strideWords
      && file.strideWords % ALIGN_WORDS == 0
      && Needed(file.count) <= MAX_SEGMENTS && Needed(file.count) <= |file.segments|
      && forall k | 0 <= k < Needed(file.count) :: SegFits(k, 4 * file.strideWords)
    }

    /** `VectorStore::open`. */
    static method Open(file: StoreFile) returns (r: Result<VectorStore>)
      requires file.Sized()
      modifies file`segments
      ensures file.Sized() && file.segments == old(file.segments)
      ensures r.Ok? <==> Openable(file)
      ensures r.Err? ==> r == Err(Corrupt)
      ensures r.Ok? ==>
                && fresh(r.value) && file.Shaped() && r.value.Valid() && r.value.file == file
                && file.count <= SegStart(|file.segments|)
                && r.value.dim == file.dim && r.value.Rows() == file.Rows(file.count)
    {
      if file.dim == 0 || file.strideWords < file.dim || file.strideWords % ALIGN_WORDS != 0 {
        return Err(Corrupt);
      }
      var store := new VectorStore(file, file.dim, file.strideWords, 0, 0);
      NeededCovers(file.count);
      var ok := store.EnsureMapped(Needed(file.count), false);
      if ok.Err? { return Err(Corrupt); }
      StartsGrow(Needed(file.count), store.mapped);
      store.count := file.count;
      r := Ok(store);
    }

    /** How many segments hold the first `n` rows; never fewer than one. */
    static function Needed(n: nat): nat {
      if n == 0 then 1 else Locate(n - 1).0 + 1
    }

    static lemma NeededCovers(n: nat)
      ensures n <= SegStart(Needed(n))
    {
      if n > 0 { SegmentsBelow(n - 1, Needed(n)); }
    }

    /** Every row of the old extents is still where it was and reads the same. */
    twostate predicate RowsKept() reads this, file, file.segments {
      && old(file.Shaped()) && file.Shaped()
      && old(file.segments) <= file.segments
      && SegStart(|old(file.segments)|) <= SegStart(|file.segments|)
      && forall i | 0 <= i < SegStart(|old(file.segments)|) :: file.Row(i) == old(file.Row(i))
    }

    /** `map_segment` for the next segment: extend the file if it is too short and that is allowed. */
    method MapNext(extend: bool) returns (r: Result<()>)
      requires Valid() && mapped < MAX_SEGMENTS
      modifies this`mapped, file`segments
      ensures Valid() && RowsKept()
      ensures forall k | |old(file.segments)| <= k < |file.segments| :: fresh(file.segments[k])
      ensures !extend ==> file.segments == old(file.segments)
      ensures r.Ok? <==> SegFits(old(mapped), 4 * strideWords) && (extend || old(mapped) < |old(file.segments)|)
      ensures mapped == if r.Ok? then old(mapped) + 1 else old(mapped)
      ensures r.Err? ==> r == Err(Corrupt)
    {
      hide SegFits, SegStart, Locate;
      var seg := mapped;
      if !SegFits(seg, 4 * strideWords) { return Err(Corrupt); }
      if seg >= |file.segments| {
        if !extend { return Err(Corrupt); }
        var extent := new Word[SegRows(seg) * strideWords](_ => 0);
        file.segments := file.segments + [extent];
        StartsGrow(seg, seg + 1);
      }
      StartsGrow(mapped, mapped + 1);
      mapped := mapped + 1;
      StartsGrow(mapped, |file.segments|);
      forall i | 0 <= i < SegStart(|old(file.segments)|) ensures file.Row(i) == old(file.Row(i)) {
        LocateInside(i);
        SegmentsBelow(i, |old(file.segments)|);
      }
      r := Ok(());
    }

    /** Map segments up to `upto`, extending the file when allowed. Nothing already mapped moves. */
    method EnsureMapped(upto: nat, extend: bool) returns (r: Result<()>)
      requires Valid()
      modifies this`mapped, file`segments
      ensures Valid() && RowsKept()
      ensures forall k | |old(file.segments)| <= k < |file.segments| :: fresh(file.segments[k])
      ensures !extend ==> file.segments == old(file.segments)
      ensures old(mapped) <= mapped
      ensures r.Ok? ==> mapped >= upto
      ensures r.Err? ==> r == Err(Corrupt)
      ensures r.Ok? <==>
                && upto <= MAX_SEGMENTS
                && (forall k | old(mapped) <= k < upto :: SegFits(k, 4 * strideWords))
                && (extend || old(mapped) >= upto || upto <= |old(file.segments)|)
    {
      hide SegFits, SegStart;
      if upto > MAX_SEGMENTS { return Err(Corrupt); }
      while mapped < upto
        invariant Valid() && RowsKept()
        invariant old(mapped) <= mapped && (mapped > old(mapped) ==> mapped <= upto)
        invariant forall k | |old(file.segments)| <= k < |file.segments| :: fresh(file.segments[k])
        invariant !extend ==> file.segments == old(file.segments)
        invariant forall k | old(mapped) <= k < mapped :: SegFits(k, 4 * strideWords)
        invariant extend || mapped == old(mapped) || mapped <= |old(file.segments)|
        decreases upto - mapped
      {
        var step := MapNext(extend);
        if step.Err? { return step; }
      }
      r := Ok(());
    }

    static lemma StartsGrow(a: nat, b: nat)
      requires a <= b
      ensures SegStart(a) <= SegStart(b)
    {
      if a < b { Pow2Monotone(a, b); }
    }

    /** Whether the row for id `id` can be placed at all. */
    ghost predicate Room(id: nat) reads this {
      && Locate(id).0 < MAX_SEGMENTS
      && forall k | mapped <= k <= Locate(id).0 :: SegFits(k, 4 * strideWords)
    }

    lemma RoomIsCapacity(id: nat)
      requires Valid() && count <= id
      ensures Room(id) <==> id < Capacity(4 * strideWords)
    {
      CapacityIsRoom(4 * strideWords, id);
    }

    /** `append`: push one row. */
    method Append(vector: Vector) returns (r: Result<nat>)
      requires Valid()
      modifies this, file`segments, file.segments
      ensures Valid() && file.count == old(file.count)
      ensures |vector| != dim ==> r == Err(DimensionMismatch(dim, |vector|))
      ensures r.Ok? <==> |vector| == dim && old(Room(count))
      ensures r.Ok? ==> r.value == old(count) && Rows() == old(Rows()) + [vector]
      ensures r.Err? ==> Rows() == old(Rows())
      ensures old(file.segments) <= file.segments
      ensures forall k | |old(file.segments)| <= k < |file.segments| :: fresh(file.segments[k])
    {
      hide SegStart, SegRows, SegFits;
      if |vector| != dim { return Err(DimensionMismatch(dim, |vector|)); }
      var id := count;
      var (seg, row) := Locate(id);
      LocateInside(id);
      var ok := EnsureMapped(seg + 1, true);
      if ok.Err? { return Err(Corrupt); }
      SegmentsBelow(id, mapped);
      StartsGrow(mapped, |file.segments|);
      assert file.Rows(id) == old(Rows());
      WriteRow(id, vector);
      count := id + 1;
      assert file.Rows(id + 1) == old(Rows()) + [vector];
      r := Ok(id);
    }

    /** Copy the row's words into its slot; every other row keeps its words. */
    method WriteRow(id: nat, vector: Vector)
      requires Valid() && |vector| == dim && id < SegStart(mapped)
      requires Locate(id).0 < |file.segments|
      modifies file.segments[Locate(id).0]
      ensures Valid() && file.Row(id) == vector
      ensures forall i | 0 <= i < SegStart(|file.segments|) && i != id :: file.Row(i) == old(file.Row(i))
    {
      var (seg, row) := Locate(id);
      LocateInside(id);
      RowInside(row, SegRows(seg), strideWords, dim);
      var at := row * strideWords;
      var extent := file.segments[seg];
      forall j | 0 <= j < dim {
        extent[at + j] := vector[j];
      }
      assert extent[at..at + dim] == vector;
      forall i | 0 <= i < SegStart(|file.segments|) && i != id ensures file.Row(i) == old(file.Row(i)) {
        OtherSlot(i, id);
      }
    }

    /** Distinct rows lie in distinct segments or in disjoint stretches of one. */
    lemma OtherSlot(i: nat, id: nat)
      requires Valid() && i != id && i < SegStart(|file.segments|)
      ensures var (s, o) := Locate(i);
              var (seg, row) := Locate(id);
              && 0 <= o < SegRows(s) && s < |file.segments|
              && 0 <= o * strideWords && o * strideWords + dim <= SegRows(s) * strideWords
              && (s == seg ==> o * strideWords + dim <= row * strideWords || row * strideWords + dim <= o * strideWords)
    {
      var (s, o) := Locate(i);
      var (seg, row) := Locate(id);
      LocateInside(i);
      LocateInside(id);
      SegmentsBelow(i, |file.segments|);
      RowInside(o, SegRows(s), strideWords, dim);
      if s == seg {
        if o < row { RowsApart(o, row, strideWords, dim); } else { RowsApart(row, o, strideWords, dim); }
      }
    }

    /** `rollback_last`: pop the row just pushed, and no other. */
    method RollbackLast(id: nat) returns (r: Result<()>)
      requires Valid()
      modifies this`count
      ensures Valid()
      ensures r == if old(count) == id + 1 then Ok(()) else Err(Corrupt)
      ensures Rows() == if r.Ok? then old(Rows())[..id] else old(Rows())
    {
      if count != id + 1 { return Err(Corrupt); }
      count := id;
      r := Ok(());
    }

    /** `get`. */
    method Get(id: nat) returns (r: Result<Vector>)
      requires Valid()
      ensures r == if id < |Rows()| then Ok(Rows()[id]) else Err(IdOutOfRange(id))
    {
      if id >= count { return Err(IdOutOfRange(id)); }
      r := Ok(file.Row(id));
    }

    /** `flush`: the header learns the count; from here on a reopen finds these rows. */
    method Flush()
      requires Valid()
      modifies file`count
      ensures Valid() && Rows() == old(Rows())
      ensures file.count == count && file.Rows(file.count) == Rows()
    {
      file.count := count;
      forall i | 0 <= i < count ensures file.Row(i) == old(file.Row(i)) {
        LocateInside(i);
        SegmentsBelow(i, |file.segments|);
      }
    }
  }
}
