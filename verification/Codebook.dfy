/** The persisted PQ codebook: `ProductQuantizer::to_bytes`/`from_bytes` and the file that frames it. */
module Codebook {
  import opened Common
  import opened Bytes
  import L = Log
  import Pq

  const MAGIC := 0x564B5051
  const VERSION := 1

  /** Centroids as the 32-bit patterns that are stored. */
  datatype Book = Book(dim: nat, m: nat, subDim: nat, words: seq<Word>)

  /** What `train` produces, with every field within 32 bits. */
  predicate BookOk(b: Book) {
    && 0 < b.m && 0 < b.subDim && b.dim == b.m * b.subDim && b.dim < U32_LIMIT
    && b.m < U32_LIMIT && b.subDim < U32_LIMIT
    && |b.words| == b.m * Pq.K * b.subDim
  }

  /** `to_bytes`. */
  function BookBytes(b: Book): seq<Byte> {
    Le(b.dim, 4) + Le(b.m, 4) + Le(b.subDim, 4) + L.WordBytes(b.words)
  }

  /** `from_bytes`; the checked products are those of a 64-bit `usize`. */
  function ParseBook(data: seq<Byte>): Option<Book> {
    if |data| < 12 then None
    else
      var dim, m, subDim := FromLe4(data[..4]), FromLe4(data[4..8]), FromLe4(data[8..12]);
      var body := data[12..];
      if dim == 0 || m == 0 || subDim == 0 || Product(subDim, m) != dim then None
      else if Product(Product(m, Pq.K), subDim) * 4 >= U64_LIMIT then None
      else if |body| != Product(Product(m, Pq.K), subDim) * 4 then None
      else Some(Book(dim, m, subDim, L.BytesToWords(body)))
  }

  function Product(a: nat, b: nat): nat { a * b }

  /** `save_codebook`. */
  function FileBytes(crc: L.Crc, b: Book): seq<Byte> {
    var payload := Le(MAGIC, 4) + Le(VERSION, 4) + BookBytes(b);
    payload + Le(crc(payload), 4)
  }

  /** `load_codebook`. */
  function Load(crc: L.Crc, raw: seq<Byte>): Result<Book> {
    if |raw| < 16 then Err(Corrupt)
    else
      var payload := raw[..|raw| - 4];
      if crc(payload) != FromLe4(raw[|raw| - 4..]) then Err(Corrupt)
      else if FromLe4(payload[..4]) != MAGIC || FromLe4(payload[4..8]) != VERSION then Err(Corrupt)
      else match ParseBook(payload[8..])
        case None => Err(Corrupt)
        case Some(b) => Ok(b)
  }

  lemma SizeBound(b: Book)
    requires BookOk(b)
    ensures Product(Product(b.m, Pq.K), b.subDim) == Pq.K * b.dim
  {
    assert (b.m * Pq.K) * b.subDim == Pq.K * (b.m * b.subDim);
  }

  /** Every codebook `train` can produce survives its own serialization. */
  lemma BookRoundTrip(b: Book)
    requires BookOk(b)
    ensures ParseBook(BookBytes(b)) == Some(b)
  {
    hide Le, FromLe, L.WordBytes, L.BytesToWords;
    var data := BookBytes(b);
    Le4(b.dim);
    Le4(b.m);
    Le4(b.subDim);
    L.WordsRoundTrip(b.words);
    SizeBound(b);
    assert data[..4] == Le(b.dim, 4) && data[4..8] == Le(b.m, 4) && data[8..12] == Le(b.subDim, 4);
    assert data[12..] == L.WordBytes(b.words);
    assert b.subDim * b.m == b.dim;
  }

  /** The converse: whatever `from_bytes` accepts is the serialization of what it returns. */
  lemma ParsedBook(data: seq<Byte>)
    requires ParseBook(data).Some?
    ensures BookBytes(ParseBook(data).value) == data
    ensures var b := ParseBook(data).value;
            b.m > 0 && b.subDim > 0 && b.dim == b.m * b.subDim && |b.words| == b.m * Pq.K * b.subDim
  {
    hide Le, FromLe, L.WordBytes, L.BytesToWords;
    LeFromLe(data[..4]);
    LeFromLe(data[4..8]);
    LeFromLe(data[8..12]);
    L.BytesRoundTrip(data[12..]);
    var b := ParseBook(data).value;
    assert b.subDim * b.m == b.m * b.subDim;
    assert data == data[..4] + data[4..8] + data[8..12] + data[12..];
  }

  /** A saved codebook loads back unchanged. */
  lemma FileRoundTrip(crc: L.Crc, b: Book)
    requires BookOk(b)
    ensures Load(crc, FileBytes(crc, b)) == Ok(b)
  {
    hide Le, FromLe, BookBytes, ParseBook;
    var payload := Le(MAGIC, 4) + Le(VERSION, 4) + BookBytes(b);
    var raw := FileBytes(crc, b);
    Le4(MAGIC);
    Le4(VERSION);
    Le4(crc(payload));
    BookRoundTrip(b);
    BookSize(b);
    assert raw[..|raw| - 4] == payload && raw[|raw| - 4..] == Le(crc(payload), 4);
    assert payload[..4] == Le(MAGIC, 4) && payload[4..8] == Le(VERSION, 4) && payload[8..] == BookBytes(b);
  }

  lemma BookSize(b: Book)
    ensures |BookBytes(b)| >= 12
  {
    hide Le, L.WordBytes;
  }

  /** The loader's language: exactly the files written for a consistent codebook. */
  lemma LoadIff(crc: L.Crc, raw: seq<Byte>, b: Book)
    ensures Load(crc, raw) == Ok(b) <==>
              && raw == FileBytes(crc, b)
              && 0 < b.m < 0x1_0000_0000 && 0 < b.subDim < 0x1_0000_0000
              && b.dim == b.m * b.subDim < 0x1_0000_0000 && |b.words| == b.m * 256 * b.subDim
  {
    hide Le, FromLe, BookBytes, ParseBook;
    if Load(crc, raw) == Ok(b) {
      var payload := raw[..|raw| - 4];
      ParsedBook(payload[8..]);
      ParsedFields(payload[8..]);
      LeFromLe(payload[..4]);
      LeFromLe(payload[4..8]);
      LeFromLe(raw[|raw| - 4..]);
      assert payload == payload[..4] + payload[4..8] + payload[8..];
      assert raw == payload + raw[|raw| - 4..];
    }
    if BookOk(b) { FileRoundTrip(crc, b); }
  }

  lemma ParsedFields(data: seq<Byte>)
    requires ParseBook(data).Some?
    ensures var b := ParseBook(data).value; b.dim < U32_LIMIT && b.m < U32_LIMIT && b.subDim < U32_LIMIT
  {
    hide FromLe, L.BytesToWords;
  }

  /** The codebook file, byte by byte. */
  lemma FileLayout(crc: L.Crc, b: Book)
    requires BookOk(b)
    ensures var f := FileBytes(crc, b);
            && |f| == 24 + 4 * |b.words|
            && f[0] == 0x51 && f[1] == 0x50 && f[2] == 0x4B && f[3] == 0x56 && L.U32At(f, 4) == 1
            && L.U32At(f, 8) == b.dim && L.U32At(f, 12) == b.m && L.U32At(f, 16) == b.subDim
            && (forall i | 0 <= i < |b.words| :: L.U32At(f, 20 + 4 * i) == b.words[i])
            && L.U32At(f, |f| - 4) == crc(f[..|f| - 4])
  {
    hide Le, FromLe, L.WordBytes, L.U32At;
    var f := FileBytes(crc, b);
    var payload := Le(MAGIC, 4) + Le(VERSION, 4) + BookBytes(b);
    assert f[0..4] == Le(MAGIC, 4) && f[4..8] == Le(VERSION, 4);
    assert f[8..12] == Le(b.dim, 4) && f[12..16] == Le(b.m, 4) && f[16..20] == Le(b.subDim, 4);
    assert f[..|f| - 4] == payload && f[|f| - 4..|f| - 4 + 4] == Le(crc(payload), 4);
    MagicBytes();
    L.U32Field(f, 4, VERSION);
    L.U32Field(f, 8, b.dim);
    L.U32Field(f, 12, b.m);
    L.U32Field(f, 16, b.subDim);
    L.U32Field(f, |f| - 4, crc(payload));
    assert f[20..20 + 4 * |b.words|] == L.WordBytes(b.words);
    WordsAt(f, 20, b.words);
  }

  lemma WordsAt(f: seq<Byte>, at: nat, words: seq<Word>)
    requires at + 4 * |words| <= |f| && f[at..at + 4 * |words|] == L.WordBytes(words)
    ensures forall i | 0 <= i < |words| :: L.U32At(f, at + 4 * i) == words[i]
  {
    hide Le, L.WordBytes, L.U32At;
    forall i | 0 <= i < |words| ensures L.U32At(f, at + 4 * i) == words[i] {
      L.WordAt(words, i);
      SliceOfSlice(f, at, 4 * |words|, 4 * i);
      L.U32Field(f, at + 4 * i, words[i]);
    }
  }

  lemma SliceOfSlice(f: seq<Byte>, at: nat, len: nat, i: nat)
    requires at + len <= |f| && i + 4 <= len
    ensures f[at + i..at + i + 4] == f[at..at + len][i..i + 4]
  {
    var part := f[at..at + len];
    assert part[i] == f[at + i] && part[i + 1] == f[at + (i + 1)];
    assert part[i + 2] == f[at + (i + 2)] && part[i + 3] == f[at + (i + 3)];
  }

  lemma MagicBytes()
    ensures Le(MAGIC, 4) == [0x51, 0x50, 0x4B, 0x56]
  {
    FourBytes([0x51, 0x50, 0x4B, 0x56]);
  }
}
