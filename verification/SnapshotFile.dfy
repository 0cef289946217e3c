/** The loops of `Hnsw::save` and `Hnsw::load`, proved to compute the functions of `Persist`. */
module SnapshotFile {
  import opened Common
  import opened Bytes
  import opened Graph
  import opened HnswIndex
  import opened Persist
  import I = Insertion
  import L = Log

  /** Bytes written so far, all of them fed to the running checksum. */
  class CrcWriter {
    var inner: seq<Byte>
    var hashed: seq<Byte>

    constructor ()
      ensures inner == [] && hashed == []
    {
      inner, hashed := [], [];
    }

    method Put(bytes: seq<Byte>)
      modifies this
      ensures inner == old(inner) + bytes && hashed == old(hashed) + bytes
    {
      hashed := hashed + bytes;
      inner := inner + bytes;
    }
  }

  /** A sequential reader that feeds what it takes to the running checksum. */
  class CrcReader {
    const data: seq<Byte>
    var pos: nat
    var hashed: seq<Byte>

    constructor (data: seq<Byte>)
      ensures this.data == data && Valid() && Rest() == data
    {
      this.data, pos, hashed := data, 0, [];
    }

    predicate Valid() reads this {
      pos <= |data| && hashed == data[..pos]
    }

    function Rest(): seq<Byte> reads this requires Valid() { data[pos..] }

    method TakeBytes(n: nat) returns (r: Result<seq<Byte>>)
      requires Valid()
      modifies this
      ensures Valid()
      ensures var t := Take(old(Rest()), n);
              if t.Err? then r == Err(t.error) && Rest() == old(Rest())
              else r == Ok(t.value.0) && Rest() == t.value.1
    {
      if pos + n > |data| { return Err(Io); }
      var b := data[pos..pos + n];
      assert old(Rest())[..n] == b && old(Rest())[n..] == data[pos + n..];
      assert data[..pos + n] == data[..pos] + b;
      hashed := hashed + b;
      pos := pos + n;
      r := Ok(b);
    }

    method U32() returns (r: Result<nat>)
      requires Valid()
      modifies this
      ensures Valid()
      ensures var t := TakeU32(old(Rest()));
              if t.Err? then r == Err(t.error) else r == Ok(t.value.0) && Rest() == t.value.1
    {
      var b :- TakeBytes(4);
      r := Ok(FromLe4(b));
    }

    method U64() returns (r: Result<nat>)
      requires Valid()
      modifies this
      ensures Valid()
      ensures var t := TakeU64(old(Rest()));
              if t.Err? then r == Err(t.error) else r == Ok(t.value.0) && Rest() == t.value.1
    {
      var b :- TakeBytes(8);
      r := Ok(FromLe8(b));
    }
  }

  /** One layer of one node. */
  method PutLinks(w: CrcWriter, links: Links)
    modifies w
    ensures w.inner == old(w.inner) + LinksBytes(links) && w.hashed == old(w.hashed) + LinksBytes(links)
  {
    hide Le;
    ghost var head := Le(|links|, 4);
    w.Put(Le(|links|, 4));
    for j := 0 to |links|
      invariant w.inner == old(w.inner) + (head + Flat(IdBytes, links[..j]))
      invariant w.hashed == old(w.hashed) + (head + Flat(IdBytes, links[..j]))
    {
      FlatSnoc(IdBytes, links[..j], links[j]);
      assert links[..j] + [links[j]] == links[..j + 1];
      w.Put(Le(links[j], 8));
    }
    assert links[..|links|] == links;
  }

  method PutNode(w: CrcWriter, node: Node)
    requires |node| > 0
    modifies w
    ensures w.inner == old(w.inner) + NodeBytes(node) && w.hashed == old(w.hashed) + NodeBytes(node)
  {
    hide Le, LinksBytes;
    ghost var head := Le(|node| - 1, 4);
    w.Put(Le(|node| - 1, 4));
    for layer := 0 to |node|
      invariant w.inner == old(w.inner) + (head + Flat(LinksBytes, node[..layer]))
      invariant w.hashed == old(w.hashed) + (head + Flat(LinksBytes, node[..layer]))
    {
      FlatSnoc(LinksBytes, node[..layer], node[layer]);
      assert node[..layer] + [node[layer]] == node[..layer + 1];
      PutLinks(w, node[layer]);
    }
    assert node[..|node|] == node;
  }

  /** `save`, up to the rename that publishes the finished file. */
  method Save(crc: L.Crc, index: Hnsw, lsn: nat) returns (file: seq<Byte>)
    requires forall i | 0 <= i < |index.nodes| :: |index.nodes[i]| > 0
    ensures file == SaveBytes(crc, Snapshot(index.cfg, index.nodes, index.entry, lsn))
  {
    hide Le, NodeBytes, HeaderBytes;
    ghost var s := Snapshot(index.cfg, index.nodes, index.entry, lsn);
    var w := new CrcWriter();
    var count := |index.nodes|;
    PutHeader(w, index.cfg, lsn, count, index.entry);
    ghost var head := HeaderBytes(s.cfg, s.lsn, |s.nodes|, s.entry);
    for i := 0 to count
      invariant w.inner == w.hashed == head + Flat(NodeBytes, s.nodes[..i])
    {
      FlatSnoc(NodeBytes, s.nodes[..i], s.nodes[i]);
      assert s.nodes[..i] + [s.nodes[i]] == s.nodes[..i + 1];
      PutNode(w, index.nodes[i]);
    }
    assert s.nodes[..count] == s.nodes;
    file := w.inner + Le(crc(w.hashed), 4);
  }

  method PutHeader(w: CrcWriter, cfg: I.Config, lsn: nat, count: nat, entry: nat)
    requires w.inner == w.hashed == []
    modifies w
    ensures w.inner == w.hashed == HeaderBytes(cfg, lsn, count, entry)
  {
    hide Le;
    w.Put(Le(MAGIC, 4));
    w.Put(Le(VERSION, 4));
    w.Put(Le(cfg.m, 4));
    w.Put(Le(cfg.efConstruction, 4));
    w.Put([MetricTag(cfg.metric)]);
    w.Put(Le(lsn, 8));
    w.Put(Le(count, 8));
    w.Put(Le(entry, 8));
  }

  /** A parse that continues after `acc` has already been read. */
  ghost function After<T>(acc: seq<T>, t: Result<(seq<T>, Rest)>): Result<(seq<T>, Rest)> {
    if t.Err? then t else Ok((acc + t.value.0, t.value.1))
  }

  lemma AfterNothing<T>(t: Result<(seq<T>, Rest)>)
    ensures After([], t) == t
  {
    if t.Ok? { assert [] + t.value.0 == t.value.0; }
  }

  ghost predicate Reads<T>(t: Result<(T, Rest)>, r: Result<T>, rest: Rest) {
    if t.Err? then r == Err(t.error) else r == Ok(t.value.0) && rest == t.value.1
  }

  method ReadLinks(r: CrcReader, len: nat, count: nat) returns (out: Result<Links>)
    requires r.Valid()
    modifies r
    ensures r.Valid()
    ensures Reads(ParseLinks(old(r.Rest()), len, count), out, r.Rest())
  {
    hide TakeU64;
    ghost var whole := ParseLinks(r.Rest(), len, count);
    var links: Links := [];
    AfterNothing(whole);
    for j := 0 to len
      invariant r.Valid()
      invariant whole == After(links, ParseLinks(r.Rest(), len - j, count))
    {
      ghost var t := ParseLinks(r.Rest(), len - j, count);
      var nb :- r.U64();
      if nb >= count { return Err(Corrupt); }
      ghost var u := ParseLinks(r.Rest(), len - j - 1, count);
      if u.Ok? { assert links + [nb] + u.value.0 == links + t.value.0; }
      links := links + [nb];
    }
    assert links + [] == links;
    out := Ok(links);
  }

  method ReadNode(r: CrcReader, cfg: I.Config, count: nat) returns (out: Result<Node>)
    requires r.Valid()
    modifies r
    ensures r.Valid()
    ensures Reads(ParseNode(old(r.Rest()), cfg, count), out, r.Rest())
  {
    hide TakeU32, ParseLayers;
    var level :- r.U32();
    if level > MAX_LEVEL { return Err(Corrupt); }
    out := ReadLayers(r, level, cfg, count);
  }

  method ReadLayers(r: CrcReader, level: nat, cfg: I.Config, count: nat) returns (out: Result<Node>)
    requires r.Valid()
    modifies r
    ensures r.Valid()
    ensures Reads(ParseLayers(old(r.Rest()), 0, level + 1, cfg, count), out, r.Rest())
  {
    hide TakeU32, ParseLinks, I.MaxDegree;
    ghost var whole := ParseLayers(r.Rest(), 0, level + 1, cfg, count);
    var node: Node := [];
    AfterNothing(whole);
    for layer := 0 to level + 1
      invariant r.Valid()
      invariant whole == After(node, ParseLayers(r.Rest(), layer, level + 1 - layer, cfg, count))
    {
      ghost var t := ParseLayers(r.Rest(), layer, level + 1 - layer, cfg, count);
      var len :- r.U32();
      var maxDegree := I.MaxDegree(cfg, layer);
      if len > maxDegree { return Err(Corrupt); }
      var links :- ReadLinks(r, len, count);
      ghost var u := ParseLayers(r.Rest(), layer + 1, level - layer, cfg, count);
      if u.Ok? { assert node + [links] + u.value.0 == node + t.value.0; }
      node := node + [links];
    }
    assert node + [] == node;
    out := Ok(node);
  }

  method ReadNodes(r: CrcReader, cfg: I.Config, count: nat) returns (out: Result<Nodes>)
    requires r.Valid()
    modifies r
    ensures r.Valid()
    ensures Reads(ParseNodes(old(r.Rest()), count, cfg, count), out, r.Rest())
  {
    hide ParseNode;
    ghost var whole := ParseNodes(r.Rest(), count, cfg, count);
    var nodes: Nodes := [];
    AfterNothing(whole);
    for i := 0 to count
      invariant r.Valid()
      invariant whole == After(nodes, ParseNodes(r.Rest(), count - i, cfg, count))
    {
      ghost var t := ParseNodes(r.Rest(), count - i, cfg, count);
      var node :- ReadNode(r, cfg, count);
      ghost var u := ParseNodes(r.Rest(), count - i - 1, cfg, count);
      if u.Ok? { assert nodes + [node] + u.value.0 == nodes + t.value.0; }
      nodes := nodes + [node];
    }
    assert nodes + [] == nodes;
    out := Ok(nodes);
  }

  method ReadHeader(r: CrcReader) returns (out: Result<(I.Config, nat, nat, nat)>)
    requires r.Valid()
    modifies r
    ensures r.Valid()
    ensures Reads(ParseHeader(old(r.Rest())), out, r.Rest())
  {
    hide TakeU32, TakeU64, Take;
    var magic :- r.U32();
    if magic != MAGIC { return Err(Corrupt); }
    var version :- r.U32();
    if version != VERSION { return Err(Corrupt); }
    var m :- r.U32();
    var ef :- r.U32();
    var tag :- r.TakeBytes(1);
    var metric :- MetricFrom(tag[0]);
    var lsn :- r.U64();
    var count :- r.U64();
    var entry :- r.U64();
    out := Ok((I.Config(m, ef, metric), lsn, count, entry));
  }

  /** The rest of `load` after the header: nodes, checksum, end of file. */
  method ReadBody(crc: L.Crc, r: CrcReader, cfg: I.Config, count: nat) returns (out: Result<Nodes>)
    requires r.Valid()
    modifies r
    ensures r.Valid()
    ensures out == ParseBody(crc, r.data, old(r.Rest()), cfg, count)
  {
    hide ParseNodes, TakeU32;
    var nodes :- ReadNodes(r, cfg, count);
    ghost var r1 := r.Rest();
    assert r.data[..|r.data| - |r1|] == r.hashed;
    var expected := crc(r.hashed);
    var sum :- r.U32();
    if sum != expected { return Err(Corrupt); }
    if r.pos < |r.data| { return Err(Corrupt); }
    out := Ok(nodes);
  }

  /** `load`: verify the whole file, then parse it into a fresh index. */
  method LoadIndex(crc: L.Crc, f: seq<Byte>, kernel: Kernel) returns (out: Result<Hnsw>, lsn: nat)
    ensures var s := Load(crc, f);
            if s.Err? then out == Err(s.error)
            else
              && out.Ok? && fresh(out.value) && fresh(out.value.visited) && out.value.Valid()
              && out.value.cfg == s.value.cfg && out.value.kernel == kernel
              && out.value.nodes == s.value.nodes && out.value.entry == s.value.entry
              && lsn == s.value.lsn
  {
    hide ParseHeader, ParseBody, CheckEntry, VerifyCrc, I.ConfigOk;
    lsn := 0;
    var fileLen := VerifyCrc(crc, f);
    if fileLen.Err? { return Err(fileLen.error), 0; }
    var r := new CrcReader(f);
    var header := ReadHeader(r);
    if header.Err? { return Err(header.error), 0; }
    var (cfg, walLsn, count, entry) := header.value;
    if !I.ConfigOk(cfg) { return Err(Corrupt), 0; }
    if count > fileLen.value / 8 { return Err(Corrupt), 0; }
    var index := new Hnsw(cfg, kernel);
    var nodes := ReadBody(crc, r, cfg, count);
    if nodes.Err? { return Err(nodes.error), 0; }
    index.nodes := nodes.value;
    var checked := CheckEntry(index.nodes, entry);
    if checked.Err? { return Err(checked.error), 0; }
    index.entry := entry;
    return Ok(index), walLsn;
  }
}
