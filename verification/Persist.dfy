/**
 * Snapshot files: what `Hnsw::save` writes, what `Hnsw::load` accepts, and that the loader gives
 * back every graph the sequential inserter can build.
 */
module Persist {
  import opened Common
  import opened Bytes
  import opened Graph
  import opened HnswIndex
  import I = Insertion
  import L = Log
  import St = Structure

  const MAGIC := 0x564B534E
  const VERSION := 1
  const HEADER: nat := 41

  /** Everything a snapshot file holds; `entry` is the packed word. */
  datatype Snapshot = Snapshot(cfg: I.Config, nodes: Nodes, entry: nat, lsn: nat)

  function SnapshotGraph(s: Snapshot): Graph {
    Graph(s.nodes, DecodeEntry(s.entry))
  }

  function Flat<T>(f: T -> seq<Byte>, s: seq<T>): seq<Byte> {
    if s == [] then [] else f(s[0]) + Flat(f, s[1..])
  }

  lemma {:induction false} FlatSnoc<T>(f: T -> seq<Byte>, s: seq<T>, x: T)
    ensures Flat(f, s + [x]) == Flat(f, s) + f(x)
  {
    if s == [] {
      assert ([x])[1..] == [];
      assert s + [x] == [x];
    } else {
      assert (s + [x])[1..] == s[1..] + [x];
      FlatSnoc(f, s[1..], x);
    }
  }

  function MetricTag(k: I.MetricKind): Byte {
    match k case L2 => 0 case Dot => 1 case Cosine => 2
  }

  function MetricFrom(tag: Byte): Result<I.MetricKind> {
    if tag == 0 then Ok(I.L2) else if tag == 1 then Ok(I.Dot) else if tag == 2 then Ok(I.Cosine)
    else Err(Corrupt)
  }

  function IdBytes(id: nat): seq<Byte> { Le(id, 8) }

  function LinksBytes(links: Links): seq<Byte> {
    Le(|links|, 4) + Flat(IdBytes, links)
  }

  function NodeBytes(n: Node): seq<Byte> {
    Le(if |n| == 0 then 0 else |n| - 1, 4) + Flat(LinksBytes, n)
  }

  function HeaderBytes(cfg: I.Config, lsn: nat, count: nat, entry: nat): (b: seq<Byte>)
    ensures |b| == HEADER
  {
    Le(MAGIC, 4) + Le(VERSION, 4) + Le(cfg.m, 4) + Le(cfg.efConstruction, 4) + [MetricTag(cfg.metric)]
    + Le(lsn, 8) + Le(count, 8) + Le(entry, 8)
  }

  function BodyBytes(s: Snapshot): seq<Byte> {
    HeaderBytes(s.cfg, s.lsn, |s.nodes|, s.entry) + Flat(NodeBytes, s.nodes)
  }

  /** The file `save` writes: the body and the checksum of the body. */
  function SaveBytes(crc: L.Crc, s: Snapshot): seq<Byte> {
    BodyBytes(s) + Le(crc(BodyBytes(s)), 4)
  }

  // --- loading, on the bytes still unread ----------------------------------------

  type Rest = seq<Byte>

  function Take(r: Rest, n: nat): (t: Result<(seq<Byte>, Rest)>)
    ensures t.Ok? ==> |t.value.0| == n && r == t.value.0 + t.value.1
  {
    if |r| < n then Err(Io) else Ok((r[..n], r[n..]))
  }

  function TakeU32(r: Rest): (t: Result<(nat, Rest)>)
    ensures t.Ok? ==> |t.value.1| + 4 == |r|
  {
    var (b, r1) :- Take(r, 4);
    Ok((FromLe4(b), r1))
  }

  function TakeU64(r: Rest): (t: Result<(nat, Rest)>)
    ensures t.Ok? ==> |t.value.1| + 8 == |r|
  {
    var (b, r1) :- Take(r, 8);
    Ok((FromLe8(b), r1))
  }

  function ParseLinks(r: Rest, len: nat, count: nat): (t: Result<(Links, Rest)>)
    ensures t.Ok? ==> |t.value.1| <= |r|
    decreases len
  {
    if len == 0 then Ok(([], r))
    else
      var (nb, r1) :- TakeU64(r);
      if nb >= count then Err(Corrupt)
      else
        var (more, r2) :- ParseLinks(r1, len - 1, count);
        Ok(([nb] + more, r2))
  }

  /** Layers `layer..layer + todo` of one node. */
  function ParseLayers(r: Rest, layer: nat, todo: nat, cfg: I.Config, count: nat): (t: Result<(seq<Links>, Rest)>)
    ensures t.Ok? ==> |t.value.0| == todo && |t.value.1| <= |r|
    decreases todo
  {
    if todo == 0 then Ok(([], r))
    else
      var (len, r1) :- TakeU32(r);
      if len > I.MaxDegree(cfg, layer) then Err(Corrupt)
      else
        var (links, r2) :- ParseLinks(r1, len, count);
        var (more, r3) :- ParseLayers(r2, layer + 1, todo - 1, cfg, count);
        Ok(([links] + more, r3))
  }

  function ParseNode(r: Rest, cfg: I.Config, count: nat): (t: Result<(Node, Rest)>)
    ensures t.Ok? ==> |t.value.1| < |r| && |t.value.0| > 0
  {
    var (level, r1) :- TakeU32(r);
    if level > MAX_LEVEL then Err(Corrupt) else ParseLayers(r1, 0, level + 1, cfg, count)
  }

  function ParseNodes(r: Rest, todo: nat, cfg: I.Config, count: nat): (t: Result<(Nodes, Rest)>)
    ensures t.Ok? ==> |t.value.0| == todo && |t.value.1| <= |r|
    decreases todo
  {
    if todo == 0 then Ok(([], r))
    else
      var (node, r1) :- ParseNode(r, cfg, count);
      var (more, r2) :- ParseNodes(r1, todo - 1, cfg, count);
      Ok(([node] + more, r2))
  }

  /** `verify_crc`: the trailing word is the checksum of everything before it. */
  function VerifyCrc(crc: L.Crc, f: seq<Byte>): Result<nat> {
    if |f| < 4 then Err(Corrupt)
    else if FromLe4(f[|f| - 4..]) != crc(f[..|f| - 4]) then Err(Corrupt)
    else Ok(|f|)
  }

  /** The fixed fields, in order, with the checks made between them. */
  function ParseHeader(f: seq<Byte>): (t: Result<((I.Config, nat, nat, nat), Rest)>)
  {
    var (magic, r1) :- TakeU32(f);
    if magic != MAGIC then Err(Corrupt)
    else
      var (version, r2) :- TakeU32(r1);
      if version != VERSION then Err(Corrupt)
      else
        var (m, r3) :- TakeU32(r2);
        var (ef, r4) :- TakeU32(r3);
        var (tag, r5) :- Take(r4, 1);
        var metric :- MetricFrom(tag[0]);
        var (lsn, r6) :- TakeU64(r5);
        var (count, r7) :- TakeU64(r6);
        var (entry, r8) :- TakeU64(r7);
        Ok(((I.Config(m, ef, metric), lsn, count, entry), r8))
  }

  function CheckEntry(nodes: Nodes, entry: nat): Result<()> {
    if entry == ENTRY_NONE then Ok(())
    else
      var (id, level) := UnpackEntry(entry);
      if id >= |nodes| then Err(Corrupt)
      else if |nodes[id]| != level + 1 then Err(Corrupt)
      else Ok(())
  }

  /** The nodes, the checksum of everything read so far, and the end of the file. */
  function ParseBody(crc: L.Crc, f: seq<Byte>, r: Rest, cfg: I.Config, count: nat): Result<Nodes> {
    var (nodes, r1) :- ParseNodes(r, count, cfg, count);
    var (sum, r2) :- TakeU32(r1);
    if |r1| > |f| || sum != crc(f[..|f| - |r1|]) then Err(Corrupt)
    else if r2 != [] then Err(Corrupt)
    else Ok(nodes)
  }

  /** `Hnsw::load`. */
  function Load(crc: L.Crc, f: seq<Byte>): Result<Snapshot> {
    var fileLen :- VerifyCrc(crc, f);
    var ((cfg, lsn, count, entry), r) :- ParseHeader(f);
    if !I.ConfigOk(cfg) then Err(Corrupt)
    else if count > fileLen / 8 then Err(Corrupt)
    else
      var nodes :- ParseBody(crc, f, r, cfg, count);
      var _ :- CheckEntry(nodes, entry);
      Ok(Snapshot(cfg, nodes, entry, lsn))
  }

  // --- the loader accepts what the saver writes -------------------------------------

  ghost predicate LinksInRange(nodes: Nodes) {
    forall i, l, j | 0 <= i < |nodes| && 0 <= l < |nodes[i]| && 0 <= j < |nodes[i][l]| ::
      nodes[i][l][j] < |nodes|
  }

  /** Every list is within its degree bound: the guard of the loader's "absurd degree" branch. */
  ghost predicate DegreesOk(cfg: I.Config, nodes: Nodes) {
    forall i, l | 0 <= i < |nodes| && 0 <= l < |nodes[i]| :: |nodes[i][l]| <= I.MaxDegree(cfg, l)
  }

  /** Everything the loader checks apart from the degrees, and that each field fits its width. */
  ghost predicate Storable(s: Snapshot) {
    && I.ConfigOk(s.cfg) && s.lsn < U64_LIMIT && s.entry < U64_LIMIT && |s.nodes| < U64_LIMIT
    && (forall i | 0 <= i < |s.nodes| :: 0 < |s.nodes[i]| <= MAX_LEVEL + 1)
    && (forall i, l | 0 <= i < |s.nodes| && 0 <= l < |s.nodes[i]| :: |s.nodes[i][l]| < U32_LIMIT)
    && LinksInRange(s.nodes)
    && CheckEntry(s.nodes, s.entry).Ok?
  }

  lemma TakeOf(b: seq<Byte>, more: Rest)
    ensures Take(b + more, |b|) == Ok((b, more))
  {
    assert (b + more)[..|b|] == b && (b + more)[|b|..] == more;
  }

  lemma TakeU32Of(n: nat, more: Rest)
    requires n < U32_LIMIT
    ensures TakeU32(Le(n, 4) + more) == Ok((n, more))
  {
    TakeOf(Le(n, 4), more);
    Le4(n);
  }

  lemma TakeU64Of(n: nat, more: Rest)
    requires n < U64_LIMIT
    ensures TakeU64(Le(n, 8) + more) == Ok((n, more))
  {
    TakeOf(Le(n, 8), more);
    Le8(n);
  }

  lemma {:induction false} ParseLinksOf(links: Links, count: nat, more: Rest)
    requires count < U64_LIMIT && forall j | 0 <= j < |links| :: links[j] < count
    ensures ParseLinks(Flat(IdBytes, links) + more, |links|, count) == Ok((links, more))
    decreases |links|
  {
    hide Le, TakeU64;
    if links == [] {
      assert Flat(IdBytes, links) + more == more;
    } else {
      var rest := Flat(IdBytes, links[1..]) + more;
      assert Flat(IdBytes, links) + more == Le(links[0], 8) + rest;
      TakeU64Of(links[0], rest);
      ParseLinksOf(links[1..], count, more);
      assert [links[0]] + links[1..] == links;
    }
  }

  ghost predicate LayersFit(layers: seq<Links>, layer: nat, cfg: I.Config) {
    forall l | 0 <= l < |layers| :: |layers[l]| <= I.MaxDegree(cfg, layer + l)
  }

  lemma LayersFitCons(layers: seq<Links>, layer: nat, cfg: I.Config)
    requires layers != []
    ensures LayersFit(layers, layer, cfg)
            <==> |layers[0]| <= I.MaxDegree(cfg, layer) && LayersFit(layers[1..], layer + 1, cfg)
  {
    if |layers[0]| <= I.MaxDegree(cfg, layer) && LayersFit(layers[1..], layer + 1, cfg) {
      forall l | 0 <= l < |layers| ensures |layers[l]| <= I.MaxDegree(cfg, layer + l) {
        if l > 0 { assert layers[l] == layers[1..][l - 1]; }
      }
    }
    if LayersFit(layers, layer, cfg) {
      forall l | 0 <= l < |layers[1..]| ensures |layers[1..][l]| <= I.MaxDegree(cfg, layer + 1 + l) {
        assert layers[1..][l] == layers[l + 1];
      }
    }
  }

  /** Reading back a node's layers succeeds exactly when none exceeds its degree bound. */
  lemma {:induction false} ParseLayersOf(layers: seq<Links>, layer: nat, cfg: I.Config, count: nat, more: Rest)
    requires count < U64_LIMIT
    requires forall l | 0 <= l < |layers| :: |layers[l]| < U32_LIMIT
    requires forall l, j | 0 <= l < |layers| && 0 <= j < |layers[l]| :: layers[l][j] < count
    ensures ParseLayers(Flat(LinksBytes, layers) + more, layer, |layers|, cfg, count)
            == if LayersFit(layers, layer, cfg) then Ok((layers, more)) else Err(Corrupt)
    decreases |layers|
  {
    hide Le, TakeU32, ParseLinks, LayersFit, I.MaxDegree;
    if layers == [] {
      assert Flat(LinksBytes, layers) + more == more;
      NothingFits(layer, cfg);
    } else {
      var rest := Flat(LinksBytes, layers[1..]) + more;
      var mid := Flat(IdBytes, layers[0]) + rest;
      assert Flat(LinksBytes, layers) + more == Le(|layers[0]|, 4) + mid;
      TakeU32Of(|layers[0]|, mid);
      LayersFitCons(layers, layer, cfg);
      ParseLinksOf(layers[0], count, rest);
      ParseLayersOf(layers[1..], layer + 1, cfg, count, more);
      assert [layers[0]] + layers[1..] == layers;
    }
  }

  lemma NothingFits(layer: nat, cfg: I.Config)
    ensures LayersFit([], layer, cfg)
  {
  }

  ghost predicate NodeOk(n: Node, count: nat) {
    && 0 < |n| <= MAX_LEVEL + 1
    && (forall l | 0 <= l < |n| :: |n[l]| < U32_LIMIT)
    && (forall l, j | 0 <= l < |n| && 0 <= j < |n[l]| :: n[l][j] < count)
  }

  lemma ParseNodeOf(n: Node, cfg: I.Config, count: nat, more: Rest)
    requires count < U64_LIMIT && NodeOk(n, count)
    ensures ParseNode(NodeBytes(n) + more, cfg, count)
            == if LayersFit(n, 0, cfg) then Ok((n, more)) else Err(Corrupt)
  {
    hide Le, TakeU32, ParseLayers, LayersFit;
    var mid := Flat(LinksBytes, n) + more;
    assert NodeBytes(n) + more == Le(|n| - 1, 4) + mid;
    TakeU32Of(|n| - 1, mid);
    ParseLayersOf(n, 0, cfg, count, more);
  }

  ghost predicate NodesFit(nodes: Nodes, cfg: I.Config) {
    forall i | 0 <= i < |nodes| :: LayersFit(nodes[i], 0, cfg)
  }

  lemma NodesFitCons(nodes: Nodes, cfg: I.Config)
    requires nodes != []
    ensures NodesFit(nodes, cfg) <==> LayersFit(nodes[0], 0, cfg) && NodesFit(nodes[1..], cfg)
  {
    hide LayersFit;
    if LayersFit(nodes[0], 0, cfg) && NodesFit(nodes[1..], cfg) {
      forall i | 0 <= i < |nodes| ensures LayersFit(nodes[i], 0, cfg) {
        if i > 0 { assert nodes[i] == nodes[1..][i - 1]; }
      }
    }
    if NodesFit(nodes, cfg) {
      forall i | 0 <= i < |nodes[1..]| ensures LayersFit(nodes[1..][i], 0, cfg) {
        assert nodes[1..][i] == nodes[i + 1];
      }
    }
  }

  lemma {:induction false} ParseNodesOf(nodes: Nodes, cfg: I.Config, count: nat, more: Rest)
    requires count < U64_LIMIT && forall i | 0 <= i < |nodes| :: NodeOk(nodes[i], count)
    ensures ParseNodes(Flat(NodeBytes, nodes) + more, |nodes|, cfg, count)
            == if NodesFit(nodes, cfg) then Ok((nodes, more)) else Err(Corrupt)
    ensures |Flat(NodeBytes, nodes)| >= 8 * |nodes|
    decreases |nodes|
  {
    hide Le, ParseNode, LayersFit, NodesFit, NodeBytes, NodeOk;
    if nodes == [] {
      assert Flat(NodeBytes, nodes) + more == more;
      NoNodesFit(cfg);
    } else {
      var rest := Flat(NodeBytes, nodes[1..]) + more;
      assert Flat(NodeBytes, nodes) + more == NodeBytes(nodes[0]) + rest;
      NodeSize(nodes[0], count);
      ParseNodeOf(nodes[0], cfg, count, rest);
      NodesFitCons(nodes, cfg);
      ParseNodesOf(nodes[1..], cfg, count, more);
      assert [nodes[0]] + nodes[1..] == nodes;
    }
  }

  lemma NoNodesFit(cfg: I.Config)
    ensures NodesFit([], cfg)
  {
  }

  lemma NodeSize(n: Node, count: nat)
    requires NodeOk(n, count)
    ensures |NodeBytes(n)| >= 8
  {
    hide Le;
    assert Flat(LinksBytes, n) == LinksBytes(n[0]) + Flat(LinksBytes, n[1..]);
  }

  lemma ParseHeaderOf(cfg: I.Config, lsn: nat, count: nat, entry: nat, more: Rest)
    requires I.ConfigOk(cfg) && lsn < U64_LIMIT && count < U64_LIMIT && entry < U64_LIMIT
    ensures ParseHeader(HeaderBytes(cfg, lsn, count, entry) + more)
            == Ok(((cfg.(efConstruction := cfg.efConstruction % U32_LIMIT), lsn, count, entry), more))
  {
    hide Le, TakeU32, TakeU64, Take;
    var ef := cfg.efConstruction % U32_LIMIT;
    LowWord(cfg.efConstruction);
    var r8 := more;
    var r7 := Le(entry, 8) + r8;
    var r6 := Le(count, 8) + r7;
    var r5 := Le(lsn, 8) + r6;
    var r4 := [MetricTag(cfg.metric)] + r5;
    var r3 := Le(ef, 4) + r4;
    var r2 := Le(cfg.m, 4) + r3;
    var r1 := Le(VERSION, 4) + r2;
    assert HeaderBytes(cfg, lsn, count, entry) + more == Le(MAGIC, 4) + r1;
    TakeU32Of(MAGIC, r1);
    TakeU32Of(VERSION, r2);
    TakeU32Of(cfg.m, r3);
    TakeU32Of(ef, r4);
    TakeOf([MetricTag(cfg.metric)], r5);
    TakeU64Of(lsn, r6);
    TakeU64Of(count, r7);
    TakeU64Of(entry, r8);
  }

  /** A four-byte field keeps the number modulo 2^32 (`as u32`). */
  lemma LowWord(n: nat)
    ensures Le(n, 4) == Le(n % U32_LIMIT, 4)
  {
    WidthLimits();
    LeAdd(n % U32_LIMIT, n / U32_LIMIT, 4);
    assert n == n % U32_LIMIT + (n / U32_LIMIT) * U32_LIMIT;
  }

  /** Multiples of 256^width do not show in `width` bytes. */
  lemma {:induction false} LeAdd(n: nat, k: nat, width: nat)
    ensures Pow256(width) > 0 && n + k * Pow256(width) >= 0
    ensures Le(n + k * Pow256(width), width) == Le(n, width)
  {
    if width > 0 {
      var p := Pow256(width - 1);
      LeAdd(n / 256, k, width - 1);
      var t := k * p;
      assert k * (256 * p) == 256 * t;
      AddHigh(n, t);
    } else {
      assert n + k * 1 >= 0;
    }
  }

  lemma AddHigh(n: nat, t: nat)
    ensures (n + 256 * t) % 256 == n % 256 && (n + 256 * t) / 256 == n / 256 + t
  {
  }

  /**
   * The snapshot round trip. A stored graph loads back with the same levels, the same ordered
   * adjacency, the same entry and the same LSN exactly when every list is within its degree bound;
   * otherwise the loader refuses it. The configuration comes back with `ef_construction` reduced
   * to 32 bits.
   */
  lemma LoadSaved(crc: L.Crc, s: Snapshot)
    requires Storable(s)
    ensures Load(crc, SaveBytes(crc, s))
            == if DegreesOk(s.cfg, s.nodes)
               then Ok(s.(cfg := s.cfg.(efConstruction := s.cfg.efConstruction % U32_LIMIT)))
               else Err(Corrupt)
  {
    hide Le, HeaderBytes, ParseHeader, ParseNodes, LinksInRange, TakeU32, CheckEntry, Flat;
    var f, body := SaveBytes(crc, s), BodyBytes(s);
    var tail := Le(crc(body), 4);
    var count := |s.nodes|;
    var cfg := s.cfg.(efConstruction := s.cfg.efConstruction % U32_LIMIT);
    Le4(crc(body));
    assert f[..|f| - 4] == body && f[|f| - 4..] == tail;
    var nodesBytes := Flat(NodeBytes, s.nodes);
    var r := nodesBytes + tail;
    assert f == HeaderBytes(s.cfg, s.lsn, count, s.entry) + r;
    ParseHeaderOf(s.cfg, s.lsn, count, s.entry, r);
    NodesOk(s);
    ParseNodesOf(s.nodes, cfg, count, tail);
    assert count <= |f| / 8;
    assert NodesFit(s.nodes, cfg) <==> DegreesOk(s.cfg, s.nodes) by { FitIsDegrees(s.nodes, s.cfg, cfg); }
    assert tail + [] == tail;
    TakeU32Of(crc(body), []);
  }

  lemma NodesOk(s: Snapshot)
    requires Storable(s)
    ensures forall i | 0 <= i < |s.nodes| :: NodeOk(s.nodes[i], |s.nodes|)
  {
  }

  lemma FitIsDegrees(nodes: Nodes, a: I.Config, b: I.Config)
    requires a.m == b.m
    ensures NodesFit(nodes, b) <==> DegreesOk(a, nodes)
  {
    if NodesFit(nodes, b) {
      forall i, l | 0 <= i < |nodes| && 0 <= l < |nodes[i]| ensures |nodes[i][l]| <= I.MaxDegree(a, l) {
        assert LayersFit(nodes[i], 0, b);
        assert I.MaxDegree(b, 0 + l) == I.MaxDegree(a, l);
      }
    }
    if DegreesOk(a, nodes) {
      forall i, l | 0 <= i < |nodes| && 0 <= l < |nodes[i]|
        ensures |nodes[i][l]| <= I.MaxDegree(b, 0 + l)
      {
        assert I.MaxDegree(b, 0 + l) == I.MaxDegree(a, l);
      }
    }
  }

  // --- and accepts nothing else -------------------------------------------------------

  lemma TakenU32(r: Rest)
    requires TakeU32(r).Ok?
    ensures var (n, more) := TakeU32(r).value; n < U32_LIMIT && r == Le(n, 4) + more
  {
    LeFromLe(Take(r, 4).value.0);
  }

  lemma TakenU64(r: Rest)
    requires TakeU64(r).Ok?
    ensures var (n, more) := TakeU64(r).value; n < U64_LIMIT && r == Le(n, 8) + more
  {
    LeFromLe(Take(r, 8).value.0);
  }

  lemma {:induction false} ParsedLinks(r: Rest, len: nat, count: nat)
    requires ParseLinks(r, len, count).Ok?
    ensures var (links, more) := ParseLinks(r, len, count).value;
            && |links| == len && r == Flat(IdBytes, links) + more
            && forall j | 0 <= j < len :: links[j] < count
    decreases len
  {
    hide Le, TakeU64;
    if len > 0 {
      TakenU64(r);
      var (nb, r1) := TakeU64(r).value;
      ParsedLinks(r1, len - 1, count);
      var (tail, more) := ParseLinks(r1, len - 1, count).value;
      assert ([nb] + tail)[1..] == tail;
      assert r == Le(nb, 8) + (Flat(IdBytes, tail) + more);
    }
  }

  lemma {:induction false} ParsedLayers(r: Rest, layer: nat, todo: nat, cfg: I.Config, count: nat)
    requires ParseLayers(r, layer, todo, cfg, count).Ok?
    ensures var (layers, more) := ParseLayers(r, layer, todo, cfg, count).value;
            && |layers| == todo && r == Flat(LinksBytes, layers) + more
            && LayersFit(layers, layer, cfg)
            && forall l, j | 0 <= l < todo && 0 <= j < |layers[l]| :: layers[l][j] < count
    decreases todo
  {
    hide Le, TakeU32, ParseLinks, LayersFit, I.MaxDegree;
    if todo == 0 {
      NothingFits(layer, cfg);
    } else {
      TakenU32(r);
      var (len, r1) := TakeU32(r).value;
      ParsedLinks(r1, len, count);
      var (links, r2) := ParseLinks(r1, len, count).value;
      ParsedLayers(r2, layer + 1, todo - 1, cfg, count);
      var (tail, more) := ParseLayers(r2, layer + 1, todo - 1, cfg, count).value;
      var layers := [links] + tail;
      LayersFitCons(layers, layer, cfg);
      assert layers[1..] == tail;
      assert r == Le(|links|, 4) + (Flat(IdBytes, links) + (Flat(LinksBytes, tail) + more));
    }
  }

  lemma ParsedNode(r: Rest, cfg: I.Config, count: nat)
    requires ParseNode(r, cfg, count).Ok?
    ensures var (n, more) := ParseNode(r, cfg, count).value;
            && r == NodeBytes(n) + more && 0 < |n| <= MAX_LEVEL + 1 && LayersFit(n, 0, cfg)
            && forall l, j | 0 <= l < |n| && 0 <= j < |n[l]| :: n[l][j] < count
  {
    hide Le, TakeU32, ParseLayers, LayersFit;
    TakenU32(r);
    var (level, r1) := TakeU32(r).value;
    ParsedLayers(r1, 0, level + 1, cfg, count);
    var (n, more) := ParseLayers(r1, 0, level + 1, cfg, count).value;
    assert r == Le(|n| - 1, 4) + (Flat(LinksBytes, n) + more);
  }

  ghost predicate LinksBelow(nodes: Nodes, count: nat) {
    forall i, l, j | 0 <= i < |nodes| && 0 <= l < |nodes[i]| && 0 <= j < |nodes[i][l]| :: nodes[i][l][j] < count
  }

  lemma {:induction false} ParsedNodes(r: Rest, todo: nat, cfg: I.Config, count: nat)
    requires ParseNodes(r, todo, cfg, count).Ok?
    ensures var (nodes, more) := ParseNodes(r, todo, cfg, count).value;
            && |nodes| == todo && r == Flat(NodeBytes, nodes) + more
            && NodesFit(nodes, cfg) && LinksBelow(nodes, count)
            && forall i | 0 <= i < todo :: 0 < |nodes[i]| <= MAX_LEVEL + 1
    decreases todo
  {
    hide Le, ParseNode, LayersFit, NodesFit, NodeBytes;
    if todo == 0 {
      NoNodesFit(cfg);
    } else {
      ParsedNode(r, cfg, count);
      var (n, r1) := ParseNode(r, cfg, count).value;
      ParsedNodes(r1, todo - 1, cfg, count);
      var (tail, more) := ParseNodes(r1, todo - 1, cfg, count).value;
      var nodes := [n] + tail;
      assert nodes[1..] == tail;
      NodesFitCons(nodes, cfg);
      forall i, l, j | 0 <= i < |nodes| && 0 <= l < |nodes[i]| && 0 <= j < |nodes[i][l]| ensures nodes[i][l][j] < count {
        if i > 0 { assert nodes[i] == tail[i - 1]; }
      }
      assert r == NodeBytes(n) + (Flat(NodeBytes, tail) + more);
    }
  }

  lemma ParsedHeader(f: seq<Byte>)
    requires ParseHeader(f).Ok?
    ensures var ((cfg, lsn, count, entry), r) := ParseHeader(f).value;
            && f == HeaderBytes(cfg, lsn, count, entry) + r
            && cfg.m < U32_LIMIT && cfg.efConstruction < U32_LIMIT
            && lsn < U64_LIMIT && count < U64_LIMIT && entry < U64_LIMIT
  {
    hide Le, TakeU32, TakeU64;
    TakenU32(f);
    var (magic, r1) := TakeU32(f).value;
    TakenU32(r1);
    var (version, r2) := TakeU32(r1).value;
    TakenU32(r2);
    var (m, r3) := TakeU32(r2).value;
    TakenU32(r3);
    var (ef, r4) := TakeU32(r3).value;
    var (tag, r5) := Take(r4, 1).value;
    var metric := MetricFrom(tag[0]).value;
    TakenU64(r5);
    var (lsn, r6) := TakeU64(r5).value;
    TakenU64(r6);
    var (count, r7) := TakeU64(r6).value;
    TakenU64(r7);
    var (entry, r8) := TakeU64(r7).value;
    assert tag == [MetricTag(metric)];
    var h := HeaderBytes(I.Config(m, ef, metric), lsn, count, entry);
    assert h + r8 == Le(MAGIC, 4) + (Le(VERSION, 4) + (Le(m, 4) + (Le(ef, 4) + (tag
        + (Le(lsn, 8) + (Le(count, 8) + (Le(entry, 8) + r8)))))));
  }

  /** What the loader vouches for, in numbers. */
  ghost predicate Vouched(s: Snapshot) {
    && 2 <= s.cfg.m <= 4096 && s.cfg.efConstruction < U32_LIMIT && s.lsn < U64_LIMIT
    && (forall i | 0 <= i < |s.nodes| :: 1 <= |s.nodes[i]| <= 64)
    && (forall i, l | 0 <= i < |s.nodes| && 0 <= l < |s.nodes[i]| ::
          |s.nodes[i][l]| <= (if l == 0 then 2 * s.cfg.m else s.cfg.m))
    && LinksBelow(s.nodes, |s.nodes|)
    && (s.entry == 0xFFFF_FFFF_FFFF_FFFF
        || (s.entry % 0x100_0000_0000_0000 < |s.nodes|
            && |s.nodes[s.entry % 0x100_0000_0000_0000]| == s.entry / 0x100_0000_0000_0000 + 1))
    && s.entry < U64_LIMIT && |s.nodes| < U64_LIMIT
  }

  lemma LoadedIsSaved(crc: L.Crc, f: seq<Byte>)
    requires Load(crc, f).Ok?
    ensures f == SaveBytes(crc, Load(crc, f).value) && Vouched(Load(crc, f).value)
  {
    hide Le, HeaderBytes, ParseHeader, ParseNodes, TakeU32, Flat, NodesFit, LinksBelow;
    ParsedHeader(f);
    var ((cfg, lsn, count, entry), r) := ParseHeader(f).value;
    ParsedNodes(r, count, cfg, count);
    var (nodes, r1) := ParseNodes(r, count, cfg, count).value;
    TakenU32(r1);
    var s := Load(crc, f).value;
    var body := BodyBytes(s);
    assert f == body + r1;
    assert |f| - |r1| == |body| && f[..|body|] == body;
    assert f == SaveBytes(crc, s);
    FitIsDegrees(nodes, cfg, cfg);
    DegreesInNumbers(cfg, nodes);
  }

  lemma DegreesInNumbers(cfg: I.Config, nodes: Nodes)
    ensures DegreesOk(cfg, nodes) <==>
              forall i, l | 0 <= i < |nodes| && 0 <= l < |nodes[i]| :: |nodes[i][l]| <= (if l == 0 then 2 * cfg.m else cfg.m)
  {
    if DegreesOk(cfg, nodes) {
      forall i, l | 0 <= i < |nodes| && 0 <= l < |nodes[i]|
        ensures |nodes[i][l]| <= if l == 0 then 2 * cfg.m else cfg.m
      {
        assert |nodes[i][l]| <= I.MaxDegree(cfg, l);
      }
    }
  }

  /**
   * The loader's language: it accepts exactly the files that `save` writes for a snapshot with a
   * permitted M, levels up to 63, lists within their degree bounds, links to existing nodes, and an entry
   * that is absent or names a node of its level.
   */
  lemma LoadIff(crc: L.Crc, f: seq<Byte>, s: Snapshot)
    ensures Load(crc, f) == Ok(s) <==> f == SaveBytes(crc, s) && Vouched(s)
  {
    hide Load, SaveBytes, LinksBelow;
    if Load(crc, f) == Ok(s) {
      LoadedIsSaved(crc, f);
    }
    if Vouched(s) {
      VouchedIsStorable(s);
      LoadSaved(crc, s);
      assert s.cfg.(efConstruction := s.cfg.efConstruction % U32_LIMIT) == s.cfg;
    }
  }

  lemma VouchedIsStorable(s: Snapshot)
    requires Vouched(s)
    ensures Storable(s) && DegreesOk(s.cfg, s.nodes)
  {
    DegreesInNumbers(s.cfg, s.nodes);
    assert LinksInRange(s.nodes);
  }

  /** The fixed fields of a snapshot file, byte by byte. */
  lemma SnapshotLayout(crc: L.Crc, s: Snapshot)
    requires Storable(s)
    ensures var f := SaveBytes(crc, s);
            && |f| >= 45
            && f[0] == 0x4E && f[1] == 0x53 && f[2] == 0x4B && f[3] == 0x56
            && L.U32At(f, 4) == 1 && L.U32At(f, 8) == s.cfg.m
            && L.U32At(f, 12) == s.cfg.efConstruction % 0x1_0000_0000
            && f[16] == (match s.cfg.metric case L2 => 0 case Dot => 1 case Cosine => 2)
            && L.U64At(f, 17) == s.lsn && L.U64At(f, 25) == |s.nodes| && L.U64At(f, 33) == s.entry
            && L.U32At(f, |f| - 4) == crc(f[..|f| - 4])
  {
    hide Le, Flat, L.U32At, L.U64At, LinksInRange, CheckEntry;
    var f := SaveBytes(crc, s);
    LowWord(s.cfg.efConstruction);
    assert f[0..4] == Le(MAGIC, 4);
    assert f[4..8] == Le(VERSION, 4) && f[8..12] == Le(s.cfg.m, 4) && f[12..16] == Le(s.cfg.efConstruction, 4);
    assert f[17..25] == Le(s.lsn, 8) && f[25..33] == Le(|s.nodes|, 8) && f[33..41] == Le(s.entry, 8);
    MagicBytes();
    L.U32Field(f, 4, VERSION);
    L.U32Field(f, 8, s.cfg.m);
    L.U32Field(f, 12, s.cfg.efConstruction % U32_LIMIT);
    L.U64Field(f, 17, s.lsn);
    L.U64Field(f, 25, |s.nodes|);
    L.U64Field(f, 33, s.entry);
    var body := BodyBytes(s);
    assert f[..|f| - 4] == body && f[|f| - 4..|f| - 4 + 4] == Le(crc(body), 4);
    L.U32Field(f, |f| - 4, crc(body));
  }

  /** "NSKV", the magic number as it appears in the file. */
  lemma MagicBytes()
    ensures Le(MAGIC, 4) == [0x4E, 0x53, 0x4B, 0x56]
  {
    FourBytes([0x4E, 0x53, 0x4B, 0x56]);
  }

  /** A graph under sequential inserts, as the snapshot that saves it. */
  function SnapshotOf(cfg: I.Config, g: Graph, lsn: nat): Snapshot {
    Snapshot(cfg, g.nodes, EncodeEntry(g.entry), lsn)
  }

  /** The part of `Storable` a well-formed graph supplies by itself. */
  lemma SaneIsStorable(cfg: I.Config, g: Graph, lsn: nat)
    requires Sane(g) && I.ConfigOk(cfg) && lsn < U64_LIMIT && |g.nodes| < ID_LIMIT
    requires forall i | 0 <= i < |g.nodes| :: |g.nodes[i]| <= MAX_LEVEL + 1
    requires forall i, l | 0 <= i < |g.nodes| && 0 <= l < |g.nodes[i]| :: |g.nodes[i][l]| < U32_LIMIT
    ensures Storable(SnapshotOf(cfg, g, lsn))
    ensures SnapshotGraph(SnapshotOf(cfg, g, lsn)) == g
  {
    var s := SnapshotOf(cfg, g, lsn);
    forall i, l, j | 0 <= i < |g.nodes| && 0 <= l < |g.nodes[i]| && 0 <= j < |g.nodes[i][l]|
      ensures g.nodes[i][l][j] < |g.nodes|
    {
      assert LayerClosed(g.nodes, l);
      assert g.nodes[i][l][j] in OnLayer(g.nodes, l);
    }
    if g.entry.Some? {
      PackRoundTrip(g.entry.value.id, g.entry.value.level);
    }
  }

  /** The invariants of sequential insertion give everything the loader checks. */
  lemma SequentialIsStorable(cfg: I.Config, g: Graph, lsn: nat)
    requires I.ConfigOk(cfg) && St.SequentialInv(cfg, g)
    requires lsn < U64_LIMIT && |g.nodes| < ID_LIMIT
    requires forall i | 0 <= i < |g.nodes| :: |g.nodes[i]| <= MAX_LEVEL + 1
    ensures Storable(SnapshotOf(cfg, g, lsn)) && DegreesOk(cfg, g.nodes)
    ensures SnapshotGraph(SnapshotOf(cfg, g, lsn)) == g
  {
    hide Storable, Sane;
    forall i, l | 0 <= i < |g.nodes| && 0 <= l < |g.nodes[i]|
      ensures |g.nodes[i][l]| <= I.MaxDegree(cfg, l)
    {
      assert St.CleanList(i, g.nodes[i][l], St.Bound(cfg, l, true), true);
    }
    forall i, l | 0 <= i < |g.nodes| && 0 <= l < |g.nodes[i]| ensures |g.nodes[i][l]| < U32_LIMIT {
      assert St.CleanList(i, g.nodes[i][l], St.Bound(cfg, l, true), true);
    }
    SaneIsStorable(cfg, g, lsn);
  }

  /**
   * Every sequentially built graph passes all of the loader's checks and comes back unchanged:
   * for every M the index accepts, every vector sequence and every level assignment up to 63. Of the
   * configuration, `ef_construction` keeps its low 32 bits.
   */
  lemma BuiltGraphRoundTrips(crc: L.Crc, cfg: I.Config, kernel: Kernel, levelOf: nat -> nat,
                             rows: seq<Vector>, lsn: nat)
    requires I.ConfigOk(cfg) && lsn < U64_LIMIT && |rows| < ID_LIMIT
    requires forall i | 0 <= i < |rows| :: levelOf(i) <= MAX_LEVEL
    ensures var g := I.Build(cfg, kernel, levelOf, rows);
            var back := Load(crc, SaveBytes(crc, SnapshotOf(cfg, g, lsn)));
            && back.Ok? && SnapshotGraph(back.value) == g && back.value.lsn == lsn
            && back.value.cfg == cfg.(efConstruction := cfg.efConstruction % U32_LIMIT)
  {
    hide I.Build, Load, SaveBytes, Storable, DegreesOk, St.SequentialInv;
    var g := I.Build(cfg, kernel, levelOf, rows);
    St.BuildInvariants(cfg, kernel, levelOf, rows);
    SequentialIsStorable(cfg, g, lsn);
    LoadSaved(crc, SnapshotOf(cfg, g, lsn));
  }
}
