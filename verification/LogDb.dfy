/**
  src/logdb.c: a key-value log in three files.  Opening for writing starts a new generation at
  the current end of the index and records that offset; opening for reading loads the index
  from the recorded offset on into a size-balanced tree ordered by a generated key.
 */
module LogDb {
  import opened Words
  import opened LogFile
  import opened SizeBalancedTree
  import opened SearchTree
  import opened TreeNodes

  const RECORD: nat := 16
  const OFFSET: nat := 4

  datatype Pair = Pair(key: seq<Byte>, data: seq<Byte>)

  /** Where a pair lies in the data file: the key, and right behind it the data. */
  datatype Extent = Extent(offset: U32, klen: U32, dlen: U32)

  function EncodeRecord(key: U32, x: Extent): (b: seq<Byte>)
    ensures |b| == RECORD
  {
    Encode(key) + Encode(x.offset) + Encode(x.klen) + Encode(x.dlen)
  }

  function DecodeRecord(b: seq<Byte>): (U32, Extent)
    requires |b| == RECORD
  {
    (Decode(b[0..4]), Extent(Decode(b[4..8]), Decode(b[8..12]), Decode(b[12..16])))
  }

  lemma {:induction false} DecodeEncodeRecord(key: U32, x: Extent)
    ensures DecodeRecord(EncodeRecord(key, x)) == (key, x)
  {
    hide Encode, Decode;
    var b := EncodeRecord(key, x);
    assert b[0..4] == Encode(key) && b[4..8] == Encode(x.offset) && b[8..12] == Encode(x.klen) && b[12..16] == Encode(x.dlen);
    DecodeEncode(key);
    DecodeEncode(x.offset);
    DecodeEncode(x.klen);
    DecodeEncode(x.dlen);
  }

  /** The layout of a record: key, offset, key length and data length, each with its lowest byte first. */
  lemma RecordExample()
    ensures EncodeRecord(0x0403_0201, Extent(0x0807_0605, 0x0c0b_0a09, 0x100f_0e0d)) ==
      [1, 2, 3, 4, 5, 6, 7, 8, 9, 10, 11, 12, 13, 14, 15, 16]
  {
    assert Encode(0x0403_0201) == [1, 2, 3, 4] && Encode(0x0807_0605) == [5, 6, 7, 8];
    assert Encode(0x0c0b_0a09) == [9, 10, 11, 12] && Encode(0x100f_0e0d) == [13, 14, 15, 16];
  }

  /** The records of the index from `from` on; a part record at the end is not one. */
  function Records(idx: seq<Byte>, from: nat): seq<(U32, Extent)>
    decreases |idx| - from
  {
    if from + RECORD > |idx| then []
    else [DecodeRecord(idx[from..from + RECORD])] + Records(idx, from + RECORD)
  }

  lemma RecordsNext(idx: seq<Byte>, from: nat)
    requires from <= |idx| && (|idx| - from) % RECORD == 0
    ensures Records(idx, from) == if from == |idx| then [] else [DecodeRecord(idx[from..from + RECORD])] + Records(idx, from + RECORD)
  {
  }

  lemma {:induction false} RecordsAppend(idx: seq<Byte>, from: nat, key: U32, x: Extent)
    requires from <= |idx| && (|idx| - from) % RECORD == 0
    ensures Records(idx + EncodeRecord(key, x), from) == Records(idx, from) + [(key, x)]
    decreases |idx| - from
  {
    hide EncodeRecord, DecodeRecord;
    var idx' := idx + EncodeRecord(key, x);
    if from == |idx| {
      assert idx'[from..from + RECORD] == EncodeRecord(key, x);
      DecodeEncodeRecord(key, x);
      assert Records(idx', from + RECORD) == [];
    } else {
      assert idx'[from..from + RECORD] == idx[from..from + RECORD];
      RecordsAppend(idx, from + RECORD, key, x);
    }
  }

  /** The pair at an extent, if the data file is long enough to hold one there. */
  function PairAt(dat: seq<Byte>, x: Extent): Pair {
    if x.offset + x.klen + x.dlen <= |dat|
    then Pair(dat[x.offset..x.offset + x.klen], dat[x.offset + x.klen..x.offset + x.klen + x.dlen])
    else Pair([], [])
  }

  /** The generation starting at index offset `bof` holds exactly `pairs`, in this order. */
  ghost predicate Holds(dat: seq<Byte>, idx: seq<Byte>, bof: nat, genkey: seq<Byte> -> Key, pairs: seq<Pair>) {
    && bof <= |idx| && |idx| - bof == RECORD * |pairs| && |Records(idx, bof)| == |pairs|
    && forall i :: 0 <= i < |pairs| ==> Stored(dat, genkey, Records(idx, bof)[i], pairs[i])
  }

  ghost predicate Stored(dat: seq<Byte>, genkey: seq<Byte> -> Key, r: (U32, Extent), p: Pair) {
    r.0 == genkey(p.key) && r.1.offset + r.1.klen + r.1.dlen <= |dat| && PairAt(dat, r.1) == p
  }

  lemma StoredMore(dat: seq<Byte>, more: seq<Byte>, genkey: seq<Byte> -> Key, r: (U32, Extent), p: Pair)
    requires Stored(dat, genkey, r, p)
    ensures Stored(dat + more, genkey, r, p)
  {
    var x := r.1;
    assert (dat + more)[x.offset..x.offset + x.klen] == dat[x.offset..x.offset + x.klen];
    assert (dat + more)[x.offset + x.klen..x.offset + x.klen + x.dlen] == dat[x.offset + x.klen..x.offset + x.klen + x.dlen];
  }

  lemma StoredLast(dat: seq<Byte>, genkey: seq<Byte> -> Key, p: Pair)
    requires |dat| + |p.key| + |p.data| < WORD
    ensures Stored(dat + p.key + p.data, genkey, (genkey(p.key), Extent(|dat|, |p.key|, |p.data|)), p)
  {
  }

  lemma HoldsNothing(dat: seq<Byte>, idx: seq<Byte>, genkey: seq<Byte> -> Key)
    ensures Holds(dat, idx, |idx|, genkey, [])
  {
  }

  /** Data that no record points to changes nothing. */
  lemma HoldsMore(dat: seq<Byte>, more: seq<Byte>, idx: seq<Byte>, bof: nat, genkey: seq<Byte> -> Key, pairs: seq<Pair>)
    requires Holds(dat, idx, bof, genkey, pairs)
    ensures Holds(dat + more, idx, bof, genkey, pairs)
  {
    hide Records;
    forall i | 0 <= i < |pairs|
      ensures Stored(dat + more, genkey, Records(idx, bof)[i], pairs[i])
    {
      StoredMore(dat, more, genkey, Records(idx, bof)[i], pairs[i]);
    }
  }

  lemma HoldsNext(dat: seq<Byte>, idx: seq<Byte>, bof: nat, genkey: seq<Byte> -> Key, pairs: seq<Pair>, p: Pair)
    requires Holds(dat, idx, bof, genkey, pairs) && |dat| + |p.key| + |p.data| < WORD
    ensures
      var x := Extent(|dat|, |p.key|, |p.data|);
      Holds(dat + p.key + p.data, idx + EncodeRecord(genkey(p.key), x), bof, genkey, pairs + [p])
  {
    hide EncodeRecord;
    var x := Extent(|dat|, |p.key|, |p.data|);
    var dat' := dat + p.key + p.data;
    RecordsAppend(idx, bof, genkey(p.key), x);
    forall i | 0 <= i < |pairs|
      ensures Stored(dat', genkey, Records(idx, bof)[i], pairs[i])
    {
      assert Stored(dat, genkey, Records(idx, bof)[i], pairs[i]);
      StoredMore(dat, p.key + p.data, genkey, Records(idx, bof)[i], pairs[i]);
      assert dat + (p.key + p.data) == dat';
    }
    hide Stored;
    StoredLast(dat, genkey, p);
  }

  /** The generation the pointer file names. */
  function Generation(ptr: seq<Byte>): nat {
    if |ptr| < OFFSET then 0 else Decode(ptr[|ptr| - OFFSET..])
  }

  // ---------- What the operations make of the files ----------

  /** `dbopen` with DB_NEW records the end of the index, over the start of the pointer file. */
  function AfterNew(f: Files): (r: Files)
    requires |f.idx.bytes| < WORD && |f.ptr.bytes| <= OFFSET
    ensures r.dat == f.dat && r.idx == f.idx && |r.ptr.bytes| <= OFFSET
  {
    var mark := if f.ptr.NextFails() then f.ptr.bytes else Encode(|f.idx.bytes|);
    f.(ptr := Image(mark, f.ptr.fails, f.ptr.writes + 1))
  }

  /** The two writes of a put to the data file go through, which is what `dbput` reports. */
  predicate DataGoes(f: Files) {
    !f.dat.fails(f.dat.writes) && !f.dat.fails(f.dat.writes + 1)
  }

  predicate RoomFor(f: Files, p: Pair) {
    |f.dat.bytes| + |p.key| + |p.data| < WORD
  }

  /** The data is written only if the key was. */
  function AfterData(dat: Image, p: Pair): (r: Image)
    ensures r.fails == dat.fails && dat.bytes <= r.bytes && |r.bytes| <= |dat.bytes| + |p.key| + |p.data|
  {
    if dat.NextFails() then dat.Appended(p.key) else dat.Appended(p.key).Appended(p.data)
  }

  /** `dbput`: the key, the data, then the record; the first failure of a data write ends it. */
  function AfterPut(f: Files, genkey: seq<Byte> -> Key, p: Pair): (r: Files)
    requires RoomFor(f, p)
    ensures r.ptr == f.ptr && |r.dat.bytes| <= |f.dat.bytes| + |p.key| + |p.data| && |r.idx.bytes| <= |f.idx.bytes| + RECORD
  {
    var data := f.(dat := AfterData(f.dat, p));
    if !DataGoes(f) then data
    else data.(idx := f.idx.Appended(EncodeRecord(genkey(p.key), Extent(|f.dat.bytes|, |p.key|, |p.data|))))
  }

  /** What a put adds to the files, whichever of its writes fail: the key, and the data and a record behind it. */
  lemma PutWrites(f: Files, genkey: seq<Byte> -> Key, p: Pair)
    requires RoomFor(f, p)
    ensures
      var (r, n) := (AfterPut(f, genkey, p), f.dat.writes);
      var (key, data, record) := (!f.dat.fails(n), !f.dat.fails(n) && !f.dat.fails(n + 1), !f.idx.fails(f.idx.writes));
      && r.ptr == f.ptr
      && r.dat.bytes == f.dat.bytes + (if key then p.key else []) + (if data then p.data else [])
      && r.idx.bytes == f.idx.bytes +
           (if data && record
            then Encode(genkey(p.key)) + Encode(|f.dat.bytes|) + Encode(|p.key|) + Encode(|p.data|)
            else [])
  {
    hide Encode;
  }

  /** One open database; `model` is its tree, `nodes` are the tree's nodes as they were inserted. */
  class Db {
    const dfd: File
    const ifd: File
    const pfd: File
    const genkey: seq<Byte> -> Key
    var bof: nat
    var root: Node?<Extent>
    ghost var model: Tree<Node<Extent>>
    ghost var nodes: seq<Node<Extent>>

    ghost predicate Valid()
      reads this, dfd, ifd, pfd, Nodes(model)
    {
      && dfd != ifd && dfd != pfd && ifd != pfd
      && Is(root, model) && model == InsertAll(Entries(nodes))
    }

    static ghost function Entries(nodes: seq<Node<Extent>>): (es: seq<Entry<Node<Extent>>>)
      ensures |es| == |nodes|
    {
      seq(|nodes|, i requires 0 <= i < |nodes| => Entry(nodes[i].key, nodes[i]))
    }

    /** The files as they are. */
    function Disk(): Files
      reads this, dfd, ifd, pfd
    {
      Files(dfd.Now(), ifd.Now(), pfd.Now())
    }

    /** `dbopen` with DB_NEW; the pointer file is overwritten from its start. */
    constructor OpenNew(files: Files, genkey: seq<Byte> -> Key)
      requires |files.idx.bytes| < WORD && |files.ptr.bytes| <= OFFSET
      ensures Valid() && this.genkey == genkey && nodes == [] && model == Leaf && fresh(dfd) && fresh(ifd) && fresh(pfd)
      ensures Disk() == AfterNew(files) && bof == |files.idx.bytes|
    {
      dfd := new File(files.dat);
      ifd := new File(files.idx);
      pfd := new File(files.ptr);
      this.genkey := genkey;
      bof, root, model, nodes := 0, null, Leaf, [];
      new;
      var _, at := ifd.SeekEnd(0);
      bof := at;
      var _ := pfd.Write(Encode(bof));
    }

    static lemma OneMore(nodes: seq<Node<Extent>>, node: Node<Extent>)
      ensures InsertAll(Entries(nodes + [node])) == Insert(InsertAll(Entries(nodes)), Entry(node.key, node))
    {
      assert Entries(nodes + [node])[..|nodes|] == Entries(nodes);
    }

    /** Allocates a node for a record and inserts it. */
    method InsertNode(key: Key, x: Extent) returns (node: Node<Extent>)
      requires Valid()
      modifies this`root, this`model, this`nodes, Nodes(model)
      ensures Valid() && fresh(node) && Nodes(model) == old(Nodes(model)) + {node}
      ensures nodes == old(nodes) + [node] && node.key == key && node.value == x
    {
      assert Is(root, model) && allocated(Nodes(model));
      node := new Node(key, x);
      assert Is(root, model);
      InsertNodes(model, Entry(key, node));
      OneMore(nodes, node);
      hide Insert, InsertAll, Entries;
      var r := InsertInPlace(root, node, model);
      root := r;
      model := Insert(model, Entry(key, node));
      nodes := nodes + [node];
    }

    /** The writes of `dbput` to the data file. */
    method PutData(p: Pair) returns (ok: bool, x: Extent)
      requires RoomFor(Disk(), p)
      modifies dfd
      ensures dfd.Now() == AfterData(old(dfd.Now()), p) && ok == DataGoes(old(Disk()))
      ensures x == Extent(|old(dfd.bytes)|, |p.key|, |p.data|)
    {
      var _, offset := dfd.SeekEnd(0);
      x := Extent(offset, |p.key|, |p.data|);
      ok := dfd.Write(p.key);
      if !ok { return; }
      ok := dfd.Write(p.data);
    }

    /**
      `dbput`: key and data to the data file, a record to the index file, a node to the tree.  It
      reports failure exactly when one of the first two writes fails; a failure of the last one
      is not reported, and the node is inserted all the same.
     */
    method Put(p: Pair) returns (ok: bool)
      requires Valid() && RoomFor(Disk(), p)
      modifies this`root, this`model, this`nodes, Nodes(model), dfd, ifd
      ensures Valid() && forall n :: n in Nodes(model) ==> n in old(Nodes(model)) || fresh(n)
      ensures Disk() == AfterPut(old(Disk()), genkey, p) && ok == DataGoes(old(Disk()))
      ensures !ok ==> nodes == old(nodes)
      ensures ok ==>
        && |nodes| == |old(nodes)| + 1 && nodes[..|old(nodes)|] == old(nodes)
        && nodes[|old(nodes)|].key == genkey(p.key)
        && nodes[|old(nodes)|].value == Extent(|old(dfd.bytes)|, |p.key|, |p.data|)
    {
      hide EncodeRecord, InsertAll, Is;
      assert Is(root, model) && allocated(Nodes(model));
      assert forall n :: n in Nodes(model) ==> n as object != dfd && n as object != ifd;
      var x;
      ok, x := PutData(p);
      assert Is(root, model);
      if !ok { return; }
      var key := genkey(p.key);
      var _, _ := ifd.SeekEnd(0);
      var _ := ifd.Write(EncodeRecord(key, x));
      assert Is(root, model);
      var _ := InsertNode(key, x);
    }

    /** The nodes so far stand for the first of these records, and the rest is what is left to read. */
    ghost predicate Loaded(all: seq<(U32, Extent)>)
      reads this, ifd, nodes
    {
      && bof <= ifd.pos <= |ifd.bytes| && (|ifd.bytes| - ifd.pos) % RECORD == 0
      && |nodes| <= |all| && Records(ifd.bytes, ifd.pos) == all[|nodes|..]
      && forall i :: 0 <= i < |nodes| ==> (nodes[i].key, nodes[i].value) == all[i]
    }

    /** Reads the next record and makes a node for it. */
    method LoadNext(ghost all: seq<(U32, Extent)>) returns (more: bool)
      requires Valid() && Loaded(all)
      modifies this`root, this`model, this`nodes, Nodes(model), ifd`pos
      ensures Valid() && Loaded(all) && (forall n :: n in Nodes(model) ==> n in old(Nodes(model)) || fresh(n))
      ensures if more then ifd.pos > old(ifd.pos) else |nodes| == |all|
    {
      hide InsertAll, DecodeRecord, Is, Records;
      assert allocated(Nodes(model));
      RecordsNext(ifd.bytes, ifd.pos);
      ghost var (at, n) := (ifd.pos, |nodes|);
      var b := ifd.Read(RECORD);
      if |b| == 0 { return false; }
      more := true;
      assert b == ifd.bytes[at..at + RECORD];
      assert all[n] == DecodeRecord(b) && all[n..][1..] == all[n + 1..];
      var (key, x) := DecodeRecord(b);
      var _ := InsertNode(key, x);
    }

    /** The loading loop of `dbopen` with DB_RDONLY: a node for every record from `bof` on. */
    method LoadIndex()
      requires Valid() && nodes == [] && model == Leaf && bof <= |ifd.bytes| && (|ifd.bytes| - bof) % RECORD == 0
      modifies this`root, this`model, this`nodes, ifd`pos
      ensures Valid() && |nodes| == |Records(ifd.bytes, bof)| && ifd.bytes == old(ifd.bytes)
      ensures fresh(Nodes(model))
      ensures forall i :: 0 <= i < |nodes| ==> (nodes[i].key, nodes[i].value) == Records(ifd.bytes, bof)[i]
    {
      hide InsertAll, Is, Records;
      assert Is(root, model) && allocated(Nodes(model));
      ifd.SeekSet(bof);
      ghost var all := Records(ifd.bytes, bof);
      assert all[0..] == all && Is(root, model);
      var more := true;
      while more
        invariant Valid() && fresh(Nodes(model)) && Loaded(all) && ifd.bytes == old(ifd.bytes)
        invariant !more ==> |nodes| == |all|
        decreases more, |ifd.bytes| - ifd.pos
      {
        more := LoadNext(all);
      }
    }

    /** `dbopen` with DB_RDONLY, up to the loading of the index. */
    constructor OpenReadOnly(files: Files, genkey: seq<Byte> -> Key)
      requires Generation(files.ptr.bytes) <= |files.idx.bytes|
      ensures Valid() && this.genkey == genkey && nodes == [] && model == Leaf
      ensures fresh(dfd) && fresh(ifd) && fresh(pfd)
      ensures Disk() == files && bof == Generation(files.ptr.bytes)
    {
      dfd := new File(files.dat);
      ifd := new File(files.idx);
      pfd := new File(files.ptr);
      this.genkey := genkey;
      bof, root, model, nodes := 0, null, Leaf, [];
      new;
      assert Valid() && Disk() == files;
      var ok, _ := pfd.SeekEnd(OFFSET);
      if ok {
        var b := pfd.Read(OFFSET);
        assert b == files.ptr.bytes[|files.ptr.bytes| - OFFSET..];
        bof := Decode(b);
      }
    }

    /** `sequence`, the callback of `dbseq`: reads the key and the data of one node. */
    method ReadPair(n: Node<Extent>) returns (ok: bool, p: Pair)
      modifies dfd`pos
      ensures n.value.offset + n.value.klen + n.value.dlen <= |dfd.bytes| ==> ok && p == PairAt(dfd.bytes, n.value)
    {
      p := Pair([], []);
      dfd.SeekSet(n.value.offset);
      var key := dfd.Read(n.value.klen);
      ok := |key| == n.value.klen;
      if !ok { return; }
      var data := dfd.Read(n.value.dlen);
      ok := |data| == n.value.dlen;
      p := Pair(key, data);
    }

    /** `dbseq`: visits the pairs in the order of the tree. */
    method Visit() returns (visited: seq<Pair>)
      requires Valid()
      requires forall i :: 0 <= i < |nodes| ==>
        nodes[i].value.offset + nodes[i].value.klen + nodes[i].value.dlen <= |dfd.bytes|
      modifies dfd`pos
      ensures Valid() && |visited| == |InOrder(model)|
      ensures forall i :: 0 <= i < |visited| ==> visited[i] == PairAt(dfd.bytes, InOrder(model)[i].item.value)
    {
      hide InsertAll, Is, PairAt;
      assert allocated(Nodes(model));
      visited := [];
      if root != null {
        RootNotNull();
        NodesLoaded();
        var order := Sequence(root, model);
        for i := 0 to |order|
          invariant |visited| == i && Is(root, model)
          invariant forall j :: 0 <= j < i ==> visited[j] == PairAt(dfd.bytes, order[j].value)
        {
          var ok, p := ReadPair(order[i]);
          if ok {
            visited := visited + [p];
          }
        }
      } else {
        RootNull();
      }
    }

    lemma RootNotNull()
      requires Valid() && root != null
      ensures model.Bin?
    {
    }

    lemma RootNull()
      requires Valid() && root == null
      ensures InOrder(model) == []
    {
    }

    /** The nodes of the tree are the nodes that were inserted. */
    lemma NodesLoaded()
      requires Valid()
      ensures forall i :: 0 <= i < |InOrder(model)| ==> InOrder(model)[i].item in nodes
    {
      hide Is, InsertAll;
      InsertAllSorts(Entries(nodes));
      SortAllElements(Entries(nodes));
      forall i | 0 <= i < |InOrder(model)|
        ensures InOrder(model)[i].item in nodes
      {
        assert InOrder(model)[i] in multiset(InOrder(model));
        assert InOrder(model)[i] in Entries(nodes);
      }
    }
  }

  /** The pairs with their generated keys. */
  function Keyed(genkey: seq<Byte> -> Key, pairs: seq<Pair>): (es: seq<Entry<Pair>>)
    ensures |es| == |pairs|
  {
    seq(|pairs|, i requires 0 <= i < |pairs| => Entry(genkey(pairs[i].key), pairs[i]))
  }

  function Unkeyed(es: seq<Entry<Pair>>): (pairs: seq<Pair>)
    ensures |pairs| == |es|
  {
    seq(|es|, i requires 0 <= i < |es| => es[i].item)
  }

  /** The order in which `dbseq` visits the pairs of a generation. */
  function VisitOrder(genkey: seq<Byte> -> Key, pairs: seq<Pair>): seq<Pair> {
    Unkeyed(SortAll(Keyed(genkey, pairs)))
  }

  function TotalSize(pairs: seq<Pair>): nat {
    if pairs == [] then 0 else TotalSize(pairs[..|pairs| - 1]) + |pairs[|pairs| - 1].key| + |pairs[|pairs| - 1].data|
  }

  lemma {:induction false} TotalSizePrefix(pairs: seq<Pair>, n: nat)
    requires n < |pairs|
    ensures TotalSize(pairs[..n]) + |pairs[n].key| + |pairs[n].data| == TotalSize(pairs[..n + 1]) <= TotalSize(pairs)
    decreases |pairs|
  {
    assert pairs[..n + 1][..n] == pairs[..n];
    if n + 1 < |pairs| {
      assert pairs[..|pairs| - 1][..n + 1] == pairs[..n + 1] && pairs[..|pairs| - 1][..n] == pairs[..n];
      TotalSizePrefix(pairs[..|pairs| - 1], n);
    } else {
      assert pairs[..n + 1] == pairs;
    }
  }

  /** The files stay below 2^32 bytes, where the 32-bit offsets end. */
  predicate Fits(f: Files, pairs: seq<Pair>) {
    |f.ptr.bytes| <= OFFSET && |f.idx.bytes| + RECORD * |pairs| < WORD && |f.dat.bytes| + TotalSize(pairs) < WORD
  }

  /** A whole save: a new generation with one put for each pair. */
  function AfterSave(f: Files, genkey: seq<Byte> -> Key, pairs: seq<Pair>): (r: Files)
    requires Fits(f, pairs)
    ensures |r.ptr.bytes| <= OFFSET && |r.dat.bytes| <= |f.dat.bytes| + TotalSize(pairs)
    ensures |r.idx.bytes| <= |f.idx.bytes| + RECORD * |pairs|
  {
    if pairs == [] then AfterNew(f) else AfterPut(AfterSave(f, genkey, pairs[..|pairs| - 1]), genkey, pairs[|pairs| - 1])
  }

  /** Saving, as `SaveRecords` does it; the results of the puts are ignored there. */
  method Save(files: Files, genkey: seq<Byte> -> Key, pairs: seq<Pair>) returns (files': Files)
    requires Fits(files, pairs)
    ensures files' == AfterSave(files, genkey, pairs)
  {
    hide InsertAll, EncodeRecord, AfterPut, AfterNew, Is;
    var db := new Db.OpenNew(files, genkey);
    assert pairs[..0] == [] && pairs[..|pairs|] == pairs;
    var i := 0;
    while i < |pairs|
      invariant i <= |pairs| && db.Valid() && db.genkey == genkey
      invariant fresh(db) && fresh(db.dfd) && fresh(db.ifd) && fresh(db.pfd) && fresh(Nodes(db.model))
      invariant Fits(files, pairs[..i]) && db.Disk() == AfterSave(files, genkey, pairs[..i])
    {
      FitsPrefix(files, pairs, i);
      assert pairs[..i + 1][..i] == pairs[..i] && pairs[..i + 1][i] == pairs[i];
      var _ := db.Put(pairs[i]);
      i := i + 1;
    }
    files' := db.Disk();
  }

  lemma FitsPrefix(f: Files, pairs: seq<Pair>, n: nat)
    requires Fits(f, pairs) && n < |pairs|
    ensures Fits(f, pairs[..n]) && Fits(f, pairs[..n + 1])
    ensures TotalSize(pairs[..n]) + |pairs[n].key| + |pairs[n].data| == TotalSize(pairs[..n + 1]) <= TotalSize(pairs)
  {
    hide TotalSize;
    TotalSizePrefix(pairs, n);
  }

  // ---------- What a load finds ----------

  /** The generation the pointer file names holds exactly `content`. */
  ghost predicate Stores(f: Files, genkey: seq<Byte> -> Key, content: seq<Pair>) {
    && Generation(f.ptr.bytes) <= |f.idx.bytes|
    && Holds(f.dat.bytes, f.idx.bytes, Generation(f.ptr.bytes), genkey, content)
  }

  /** A put adds its pair if all three writes go through, and otherwise nothing. */
  function ContentAfterPut(f: Files, p: Pair, content: seq<Pair>): seq<Pair> {
    if DataGoes(f) && !f.idx.NextFails() then content + [p] else content
  }

  /** A save starts from nothing, unless the pointer write fails: then it adds to what there was. */
  function ContentAfterSave(f: Files, genkey: seq<Byte> -> Key, pairs: seq<Pair>, content: seq<Pair>): seq<Pair>
    requires Fits(f, pairs)
  {
    if pairs == [] then (if f.ptr.NextFails() then content else [])
    else
      ContentAfterPut(AfterSave(f, genkey, pairs[..|pairs| - 1]), pairs[|pairs| - 1],
                      ContentAfterSave(f, genkey, pairs[..|pairs| - 1], content))
  }

  lemma {:induction false} PutStores(f: Files, genkey: seq<Byte> -> Key, p: Pair, content: seq<Pair>)
    requires RoomFor(f, p) && Stores(f, genkey, content)
    ensures Stores(AfterPut(f, genkey, p), genkey, ContentAfterPut(f, p, content))
  {
    hide EncodeRecord, Generation, Holds;
    var bof := Generation(f.ptr.bytes);
    HoldsMore(f.dat.bytes, p.key, f.idx.bytes, bof, genkey, content);
    HoldsMore(f.dat.bytes + p.key, p.data, f.idx.bytes, bof, genkey, content);
    HoldsNext(f.dat.bytes, f.idx.bytes, bof, genkey, content, p);
  }

  /** Whatever writes fail, the named generation holds what `ContentAfterSave` says. */
  lemma {:induction false} SaveStores(f: Files, genkey: seq<Byte> -> Key, pairs: seq<Pair>, content: seq<Pair>)
    requires Fits(f, pairs) && Stores(f, genkey, content)
    ensures Stores(AfterSave(f, genkey, pairs), genkey, ContentAfterSave(f, genkey, pairs, content))
  {
    if pairs == [] {
      NamedGeneration(|f.idx.bytes|);
      HoldsNothing(f.dat.bytes, f.idx.bytes, genkey);
    } else {
      hide AfterPut, AfterNew, Stores;
      var (init, last) := (pairs[..|pairs| - 1], pairs[|pairs| - 1]);
      SaveStores(f, genkey, init, content);
      PutStores(AfterSave(f, genkey, init), genkey, last, ContentAfterSave(f, genkey, init, content));
    }
  }

  /** No write of `n` puts fails. */
  ghost predicate Smooth(f: Files, n: nat) {
    f.dat.Smooth(2 * n) && f.idx.Smooth(n)
  }

  /** A put whose three writes go through. */
  lemma SmoothPut(f: Files, genkey: seq<Byte> -> Key, p: Pair, content: seq<Pair>)
    requires RoomFor(f, p) && f.dat.Smooth(2) && f.idx.Smooth(1)
    ensures ContentAfterPut(f, p, content) == content + [p]
    ensures
      var r := AfterPut(f, genkey, p);
      && r.dat.fails == f.dat.fails && r.dat.writes == f.dat.writes + 2
      && r.idx.fails == f.idx.fails && r.idx.writes == f.idx.writes + 1
  {
    hide EncodeRecord;
  }

  /** A save whose puts all go through; if its pointer write fails, the load will find the old pairs too. */
  lemma {:induction false} SmoothSave(f: Files, genkey: seq<Byte> -> Key, pairs: seq<Pair>, content: seq<Pair>)
    requires Fits(f, pairs) && Smooth(f, |pairs|)
    ensures ContentAfterSave(f, genkey, pairs, content) == (if f.ptr.NextFails() then content else []) + pairs
    ensures
      var r := AfterSave(f, genkey, pairs);
      && r.dat.fails == f.dat.fails && r.dat.writes == f.dat.writes + 2 * |pairs|
      && r.idx.fails == f.idx.fails && r.idx.writes == f.idx.writes + |pairs|
  {
    hide AfterPut, ContentAfterPut;
    if pairs != [] {
      var (init, last) := (pairs[..|pairs| - 1], pairs[|pairs| - 1]);
      SmoothSave(f, genkey, init, content);
      SmoothPut(AfterSave(f, genkey, init), genkey, last, ContentAfterSave(f, genkey, init, content));
      assert pairs == init + [last];
    }
  }

  lemma RoughPut(f: Files, p: Pair, content: seq<Pair>)
    ensures |ContentAfterPut(f, p, content)| <= |content| + 1
    ensures !(f.dat.Smooth(2) && f.idx.Smooth(1)) ==> ContentAfterPut(f, p, content) == content
  {
  }

  lemma SmoothMore(f: Files, r: Files, n: nat)
    requires Smooth(f, n) && r.dat.fails == f.dat.fails && r.dat.writes == f.dat.writes + 2 * n
    requires r.idx.fails == f.idx.fails && r.idx.writes == f.idx.writes + n
    ensures r.dat.Smooth(2) && r.idx.Smooth(1) ==> Smooth(f, n + 1)
  {
  }

  /** A save whose pointer write goes through loses a pair as soon as any of its writes fails. */
  lemma {:induction false} RoughSave(f: Files, genkey: seq<Byte> -> Key, pairs: seq<Pair>, content: seq<Pair>)
    requires Fits(f, pairs) && !Smooth(f, |pairs|) && !f.ptr.NextFails()
    ensures |ContentAfterSave(f, genkey, pairs, content)| < |pairs|
  {
    hide AfterPut, ContentAfterPut;
    if pairs != [] {
      hide Smooth;
      var (init, last) := (pairs[..|pairs| - 1], pairs[|pairs| - 1]);
      var r := AfterSave(f, genkey, init);
      ContentBound(f, genkey, init, content);
      RoughPut(r, last, ContentAfterSave(f, genkey, init, content));
      if Smooth(f, |init|) {
        SmoothSave(f, genkey, init, content);
        SmoothMore(f, r, |init|);
      } else {
        RoughSave(f, genkey, init, content);
      }
    }
  }

  lemma {:induction false} ContentBound(f: Files, genkey: seq<Byte> -> Key, pairs: seq<Pair>, content: seq<Pair>)
    requires Fits(f, pairs) && !f.ptr.NextFails()
    ensures |ContentAfterSave(f, genkey, pairs, content)| <= |pairs|
  {
    if pairs != [] {
      ContentBound(f, genkey, pairs[..|pairs| - 1], content);
      hide AfterPut;
    }
  }

  /** With the pointer write through, the save is stored as it is if and only if no put's write fails. */
  lemma {:induction false} SaveExact(f: Files, genkey: seq<Byte> -> Key, pairs: seq<Pair>, content: seq<Pair>)
    requires Fits(f, pairs) && !f.ptr.NextFails()
    ensures ContentAfterSave(f, genkey, pairs, content) == pairs <==> Smooth(f, |pairs|)
  {
    if Smooth(f, |pairs|) {
      SmoothSave(f, genkey, pairs, content);
    } else {
      RoughSave(f, genkey, pairs, content);
    }
  }

  // ---------- Generations ----------

  predicate AllFit(f: Files, genkey: seq<Byte> -> Key, generations: seq<seq<Pair>>)
    decreases |generations|, 0
  {
    generations == [] ||
    var init := generations[..|generations| - 1];
    AllFit(f, genkey, init) && Fits(AfterSaves(f, genkey, init), generations[|generations| - 1])
  }

  function AfterSaves(f: Files, genkey: seq<Byte> -> Key, generations: seq<seq<Pair>>): Files
    requires AllFit(f, genkey, generations)
    decreases |generations|, 1
  {
    if generations == [] then f
    else AfterSave(AfterSaves(f, genkey, generations[..|generations| - 1]), genkey, generations[|generations| - 1])
  }

  /** What a load finds after these saves, starting from files that store `content`. */
  function Content(f: Files, genkey: seq<Byte> -> Key, generations: seq<seq<Pair>>, content: seq<Pair>): seq<Pair>
    requires AllFit(f, genkey, generations)
    decreases |generations|
  {
    if generations == [] then content
    else
      var init := generations[..|generations| - 1];
      ContentAfterSave(AfterSaves(f, genkey, init), genkey, generations[|generations| - 1], Content(f, genkey, init, content))
  }

  lemma {:induction false} SavesStore(f: Files, genkey: seq<Byte> -> Key, generations: seq<seq<Pair>>, content: seq<Pair>)
    requires AllFit(f, genkey, generations) && Stores(f, genkey, content)
    ensures Stores(AfterSaves(f, genkey, generations), genkey, Content(f, genkey, generations, content))
    decreases |generations|
  {
    if generations != [] {
      hide AfterSave, ContentAfterSave, Stores;
      var init := generations[..|generations| - 1];
      SavesStore(f, genkey, init, content);
      SaveStores(AfterSaves(f, genkey, init), genkey, generations[|generations| - 1], Content(f, genkey, init, content));
    }
  }

  lemma {:induction false} FitsSoFar(f: Files, genkey: seq<Byte> -> Key, generations: seq<seq<Pair>>, n: nat)
    requires AllFit(f, genkey, generations) && n < |generations|
    ensures AllFit(f, genkey, generations[..n]) && AllFit(f, genkey, generations[..n + 1])
    ensures Fits(AfterSaves(f, genkey, generations[..n]), generations[n])
    ensures AfterSaves(f, genkey, generations[..n + 1]) == AfterSave(AfterSaves(f, genkey, generations[..n]), genkey, generations[n])
    decreases |generations|
  {
    hide AfterSave, Fits;
    var init := generations[..|generations| - 1];
    if n + 1 < |generations| {
      FitsSoFar(f, genkey, init, n);
      assert init[..n] == generations[..n] && init[..n + 1] == generations[..n + 1];
    } else {
      assert generations[..n] == init && generations[..n + 1] == generations;
    }
  }

  lemma NamedGeneration(bof: U32)
    ensures Generation(Encode(bof)) == bof
  {
    DecodeEncode(bof);
    assert Encode(bof)[0..] == Encode(bof);
  }

  /** Loading, as `LoadRecords` does it: visits the pairs of the named generation in key order. */
  method Load(files: Files, genkey: seq<Byte> -> Key, ghost content: seq<Pair>) returns (visited: seq<Pair>)
    requires Stores(files, genkey, content)
    ensures visited == VisitOrder(genkey, content)
  {
    hide InsertAll, Records, Generation, PairAt;
    var db := new Db.OpenReadOnly(files, genkey);
    db.LoadIndex();
    visited := db.Visit();
    VisitedOrder(db, content, visited);
  }

  /** A loaded tree is visited in the order of the sorted pairs. */
  lemma VisitedOrder(db: Db, pairs: seq<Pair>, visited: seq<Pair>)
    requires db.Valid() && Holds(db.dfd.bytes, db.ifd.bytes, db.bof, db.genkey, pairs)
    requires |db.nodes| == |pairs|
    requires forall i :: 0 <= i < |db.nodes| ==> (db.nodes[i].key, db.nodes[i].value) == Records(db.ifd.bytes, db.bof)[i]
    requires |visited| == |InOrder(db.model)|
    requires forall i :: 0 <= i < |visited| ==> visited[i] == PairAt(db.dfd.bytes, InOrder(db.model)[i].item.value)
    ensures visited == VisitOrder(db.genkey, pairs)
  {
    hide InsertAll, Records, PairAt, Is;
    var dat := db.dfd.bytes;
    var f := (n: Node<Extent>) => PairAt(dat, n.value);
    var es := Db.Entries(db.nodes);
    InsertAllSorts(es);
    MapSortAll(es, f);
    forall i | 0 <= i < |pairs|
      ensures MapItems(es, f)[i] == Keyed(db.genkey, pairs)[i]
    {
      assert Stored(dat, db.genkey, Records(db.ifd.bytes, db.bof)[i], pairs[i]);
    }
    assert MapItems(es, f) == Keyed(db.genkey, pairs);
    assert forall i :: 0 <= i < |visited| ==> visited[i] == MapItems(SortAll(es), f)[i].item;
  }

  /** Equal keys come with equal data, as in a map. */
  ghost predicate Functional(pairs: seq<Pair>) {
    forall p, q :: p in pairs && q in pairs && p.key == q.key ==> p == q
  }

  /** The map a loader builds, entering the pairs one by one. */
  function Rebuild(pairs: seq<Pair>): map<seq<Byte>, seq<Byte>> {
    if pairs == [] then map[] else Rebuild(pairs[..|pairs| - 1])[pairs[|pairs| - 1].key := pairs[|pairs| - 1].data]
  }

  lemma {:induction false} RebuildSays(pairs: seq<Pair>)
    requires Functional(pairs)
    ensures forall p :: p in pairs ==> p.key in Rebuild(pairs) && Rebuild(pairs)[p.key] == p.data
    ensures forall k :: k in Rebuild(pairs) ==> Pair(k, Rebuild(pairs)[k]) in pairs
  {
    if pairs != [] {
      var (init, last) := (pairs[..|pairs| - 1], pairs[|pairs| - 1]);
      RebuildSays(init);
      assert pairs == init + [last];
    }
  }

  /** The visit is a rearrangement of the pairs. */
  lemma VisitElements(genkey: seq<Byte> -> Key, pairs: seq<Pair>)
    ensures forall p :: p in VisitOrder(genkey, pairs) <==> p in pairs
    ensures |VisitOrder(genkey, pairs)| == |pairs|
  {
    var es := Keyed(genkey, pairs);
    SortAllElements(es);
    assert |SortAll(es)| == |multiset(SortAll(es))| == |multiset(es)| == |es|;
    forall p | p in pairs
      ensures p in VisitOrder(genkey, pairs)
    {
      var i :| 0 <= i < |pairs| && pairs[i] == p;
      assert es[i] in multiset(es) && es[i] in SortAll(es);
      var j :| 0 <= j < |SortAll(es)| && SortAll(es)[j] == es[i];
      assert VisitOrder(genkey, pairs)[j] == p;
    }
    forall p | p in VisitOrder(genkey, pairs)
      ensures p in pairs
    {
      var j :| 0 <= j < |SortAll(es)| && SortAll(es)[j].item == p;
      assert SortAll(es)[j] in multiset(SortAll(es)) && SortAll(es)[j] in es;
    }
  }

  lemma {:induction false} RebuildConcat(a: seq<Pair>, b: seq<Pair>)
    ensures Rebuild(a + b) == Rebuild(a) + Rebuild(b)
  {
    if b == [] {
      assert a + b == a;
    } else {
      RebuildConcat(a, b[..|b| - 1]);
      assert (a + b)[..|a + b| - 1] == a + b[..|b| - 1];
    }
  }

  lemma RebuildOne(p: Pair)
    ensures Rebuild([p]) == map[p.key := p.data]
  {
    assert [p][..0] == [];
  }

  lemma {:induction false} RebuildKeys(pairs: seq<Pair>, key: seq<Byte>)
    requires key in Rebuild(pairs)
    ensures exists i :: 0 <= i < |pairs| && pairs[i].key == key
  {
    var (init, last) := (pairs[..|pairs| - 1], pairs[|pairs| - 1]);
    if last.key != key {
      RebuildKeys(init, key);
      var i :| 0 <= i < |init| && init[i].key == key;
      assert pairs[i].key == key;
    }
  }

  /** Whether the entries carry the keys generated for their pairs. */
  ghost predicate Generated(genkey: seq<Byte> -> Key, es: seq<Entry<Pair>>) {
    forall i :: 0 <= i < |es| ==> es[i].key == genkey(es[i].item.key)
  }

  /** A pair comes before all others with its key, so it is overwritten by them and overwrites none. */
  lemma {:induction false} RebuildInserted(genkey: seq<Byte> -> Key, es: seq<Entry<Pair>>, e: Entry<Pair>)
    requires Generated(genkey, es) && e.key == genkey(e.item.key)
    ensures Generated(genkey, InsertSorted(es, e))
    ensures Rebuild(Unkeyed(InsertSorted(es, e))) == Rebuild([e.item]) + Rebuild(Unkeyed(es))
  {
    hide Rebuild;
    var r := InsertSorted(es, e);
    if es == [] || e.key <= es[0].key {
      assert Unkeyed(r) == [e.item] + Unkeyed(es);
      RebuildConcat([e.item], Unkeyed(es));
    } else {
      var (first, rest) := (es[0], es[1..]);
      RebuildInserted(genkey, rest, e);
      assert r == [first] + InsertSorted(rest, e);
      assert Unkeyed(r) == [first.item] + Unkeyed(InsertSorted(rest, e)) && Unkeyed(es) == [first.item] + Unkeyed(rest);
      RebuildConcat([first.item], Unkeyed(InsertSorted(rest, e)));
      RebuildConcat([first.item], Unkeyed(rest));
      RebuildOne(first.item);
      RebuildOne(e.item);
      assert first.item.key != e.item.key;
    }
  }

  /**
    The map a load rebuilds, for any pairs: among equal keys the one that was put first wins,
    because the tree visits equal keys in the reverse of the order in which they were inserted.
   */
  lemma {:induction false} FirstWins(genkey: seq<Byte> -> Key, pairs: seq<Pair>)
    ensures Generated(genkey, SortAll(Keyed(genkey, pairs)))
    ensures Rebuild(VisitOrder(genkey, pairs)) == Rebuild(Reverse(pairs))
  {
    hide Rebuild, InsertSorted;
    if pairs == [] {
      assert VisitOrder(genkey, pairs) == [] && Reverse(pairs) == [];
    } else {
      var (init, last) := (pairs[..|pairs| - 1], pairs[|pairs| - 1]);
      FirstWins(genkey, init);
      assert Keyed(genkey, pairs)[..|pairs| - 1] == Keyed(genkey, init);
      RebuildInserted(genkey, SortAll(Keyed(genkey, init)), Entry(genkey(last.key), last));
      assert pairs == init + [last];
      ReverseSnoc(init, last);
      RebuildConcat([last], Reverse(init));
    }
  }

  lemma {:induction false} ReverseConcat(a: seq<Pair>, b: seq<Pair>)
    ensures Reverse(a + b) == Reverse(b) + Reverse(a)
  {
    if a == [] {
      assert a + b == b;
    } else {
      ReverseConcat(a[1..], b);
      assert (a + b)[1..] == a[1..] + b && (a + b)[0] == a[0];
    }
  }

  /** Of two generations loaded as one, the older one wins. */
  lemma OlderWins(genkey: seq<Byte> -> Key, older: seq<Pair>, newer: seq<Pair>)
    ensures Rebuild(VisitOrder(genkey, older + newer)) == Rebuild(VisitOrder(genkey, newer)) + Rebuild(VisitOrder(genkey, older))
  {
    hide Rebuild, VisitOrder, Reverse;
    FirstWins(genkey, older);
    FirstWins(genkey, newer);
    FirstWins(genkey, older + newer);
    ReverseConcat(older, newer);
    RebuildConcat(Reverse(newer), Reverse(older));
  }

  /** The map does not depend on the order in which the pairs are entered. */
  lemma RebuildSame(pairs: seq<Pair>, pairs': seq<Pair>)
    requires Functional(pairs) && forall p :: p in pairs' <==> p in pairs
    ensures Rebuild(pairs') == Rebuild(pairs)
  {
    hide Rebuild;
    RebuildSays(pairs);
    RebuildSays(pairs');
    forall k | k in Rebuild(pairs)
      ensures k in Rebuild(pairs') && Rebuild(pairs')[k] == Rebuild(pairs)[k]
    {
      assert Pair(k, Rebuild(pairs)[k]) in pairs';
    }
    forall k | k in Rebuild(pairs')
      ensures k in Rebuild(pairs)
    {
      assert Pair(k, Rebuild(pairs')[k]) in pairs;
    }
  }

  /**
    The round trip: whatever the generated keys, and however many of them collide, the visit
    is in nondecreasing order of the generated keys, and the map it rebuilds has for each key
    the datum put first; if equal keys come with equal data, it is the map saved.
   */
  lemma RoundTrip(genkey: seq<Byte> -> Key, pairs: seq<Pair>)
    ensures
      var visited := VisitOrder(genkey, pairs);
      && Rebuild(visited) == Rebuild(Reverse(pairs))
      && (Functional(pairs) ==> Rebuild(visited) == Rebuild(pairs))
      && forall i, j :: 0 <= i < j < |visited| ==> genkey(visited[i].key) <= genkey(visited[j].key)
  {
    hide Rebuild, InsertAll, Functional;
    var visited := VisitOrder(genkey, pairs);
    FirstWins(genkey, pairs);
    InsertAllSorts(Keyed(genkey, pairs));
    if Functional(pairs) {
      VisitElements(genkey, pairs);
      RebuildSame(pairs, visited);
    }
  }

  /** Every key of `m` has the same datum in `n`. */
  ghost predicate Agrees(m: map<seq<Byte>, seq<Byte>>, n: map<seq<Byte>, seq<Byte>>) {
    forall k :: k in m ==> k in n && n[k] == m[k]
  }

  lemma MergeAgrees(m: map<seq<Byte>, seq<Byte>>, n: map<seq<Byte>, seq<Byte>>)
    ensures n + m == n <==> Agrees(m, n)
  {
    if n + m == n {
      forall k | k in m
        ensures k in n && n[k] == m[k]
      {
        assert k in n + m && (n + m)[k] == m[k];
      }
    }
  }

  /**
    What a load rebuilds after a save whose puts all go through.  If the pointer write failed,
    the old generation is loaded with the new one, and its data win: the map is the one saved if
    and only if the pointer write went through, or the old generation agrees with it.
   */
  lemma RebuiltExactly(f: Files, genkey: seq<Byte> -> Key, pairs: seq<Pair>, content: seq<Pair>)
    requires Fits(f, pairs) && Smooth(f, |pairs|) && Functional(pairs)
    ensures
      var before := Rebuild(VisitOrder(genkey, content));
      var after := Rebuild(VisitOrder(genkey, ContentAfterSave(f, genkey, pairs, content)));
      && after == Rebuild(pairs) + (if f.ptr.NextFails() then before else map[])
      && (after == Rebuild(pairs) <==> !f.ptr.NextFails() || Agrees(before, Rebuild(pairs)))
  {
    hide Rebuild, VisitOrder, ContentAfterSave, Functional, Agrees;
    SmoothSave(f, genkey, pairs, content);
    RoundTrip(genkey, pairs);
    if f.ptr.NextFails() {
      OlderWins(genkey, content, pairs);
      MergeAgrees(Rebuild(VisitOrder(genkey, content)), Rebuild(pairs));
    } else {
      assert [] + pairs == pairs;
    }
  }

  /**
    The failure at an input: from empty files, a datum is saved under a key, then another under
    the same key while the pointer write fails, and no other write does.  The load finds the
    first one.
   */
  lemma StaleDatum(genkey: seq<Byte> -> Key, key: seq<Byte>, first: seq<Byte>, second: seq<Byte>)
    requires first != second && 2 * |key| + |first| + |second| < WORD
    ensures
      var image := Image([], k => false, 0);
      var files := Files(image, image, Image([], k => k == 1, 0));
      var generations := [[Pair(key, first)], [Pair(key, second)]];
      && AllFit(files, genkey, generations)
      && Rebuild(VisitOrder(genkey, Content(files, genkey, generations, []))) == map[key := first]
  {
    hide AfterSave, Rebuild, VisitOrder, ContentAfterSave, Content, AllFit, AfterSaves, Agrees;
    var files := Files(Image([], k => false, 0), Image([], k => false, 0), Image([], k => k == 1, 0));
    var (one, two) := ([Pair(key, first)], [Pair(key, second)]);
    OneSize(one[0]);
    OneSize(two[0]);
    OneSave(files, genkey, one[0]);
    TwoSaves(files, genkey, one, two, []);
    SmoothSave(files, genkey, one, []);
    assert [] + one == one;
    RebuiltExactly(files, genkey, one, []);
    RebuiltExactly(AfterSave(files, genkey, one), genkey, two, one);
    RebuildOne(one[0]);
    RebuildOne(two[0]);
    assert map[key := second] + map[key := first] == map[key := first];
  }

  lemma OneSize(p: Pair)
    ensures TotalSize([p]) == |p.key| + |p.data|
  {
    assert [p][..0] == [];
  }

  lemma TwoSaves(f: Files, genkey: seq<Byte> -> Key, a: seq<Pair>, b: seq<Pair>, content: seq<Pair>)
    requires Fits(f, a) && Fits(AfterSave(f, genkey, a), b)
    ensures AllFit(f, genkey, [a, b])
    ensures Content(f, genkey, [a, b], content)
         == ContentAfterSave(AfterSave(f, genkey, a), genkey, b, ContentAfterSave(f, genkey, a, content))
  {
    hide AfterSave, ContentAfterSave, Fits;
    var (one, two) := ([a], [a, b]);
    assert two[..1] == one && one[..0] == [];
    assert AllFit(f, genkey, one[..0]) && AfterSaves(f, genkey, one[..0]) == f;
    assert AllFit(f, genkey, one) && AfterSaves(f, genkey, one) == AfterSave(f, genkey, a);
    assert Content(f, genkey, one[..0], content) == content;
    assert Content(f, genkey, one, content) == ContentAfterSave(f, genkey, a, content);
    assert AllFit(f, genkey, two);
  }

  /** The pointer file after a save of one pair. */
  lemma OneSave(f: Files, genkey: seq<Byte> -> Key, p: Pair)
    requires Fits(f, [p])
    ensures AfterSave(f, genkey, [p]).ptr.fails == f.ptr.fails && AfterSave(f, genkey, [p]).ptr.writes == f.ptr.writes + 1
  {
    assert [p][..0] == [] && AfterSave(f, genkey, []) == AfterNew(f);
    hide EncodeRecord;
  }

  /**
    Any number of generations saved one after the other, with any writes failing, then a load: it
    visits exactly the pairs whose writes went through since the last generation that was
    recorded, in key order, and the datum put first wins.  If no put of the last save failed, the
    map rebuilt is the one saved, overwritten with what was loaded before if the pointer write
    failed.
   */
  method SaveManyThenLoad(files: Files, genkey: seq<Byte> -> Key, generations: seq<seq<Pair>>, ghost content: seq<Pair>)
    returns (visited: seq<Pair>)
    requires Stores(files, genkey, content) && AllFit(files, genkey, generations)
    ensures visited == VisitOrder(genkey, Content(files, genkey, generations, content))
    ensures Rebuild(visited) == Rebuild(Reverse(Content(files, genkey, generations, content)))
    ensures LastPutsSmooth(files, genkey, generations) ==>
      var (init, last) := (generations[..|generations| - 1], generations[|generations| - 1]);
      var before := Rebuild(VisitOrder(genkey, Content(files, genkey, init, content)));
      && Rebuild(visited) == Rebuild(last) + (if AfterSaves(files, genkey, init).ptr.NextFails() then before else map[])
      && (Rebuild(visited) == Rebuild(last) <==>
            !AfterSaves(files, genkey, init).ptr.NextFails() || Agrees(before, Rebuild(last)))
  {
    hide InsertAll, AfterSave, Stores, AllFit, Rebuild, Reverse, Agrees;
    var disk := files;
    var i := 0;
    NoSaves(files, genkey, generations);
    while i < |generations|
      invariant i <= |generations| && AllFit(files, genkey, generations[..i])
      invariant disk == AfterSaves(files, genkey, generations[..i])
    {
      FitsSoFar(files, genkey, generations, i);
      disk := Save(disk, genkey, generations[i]);
      i := i + 1;
    }
    assert generations[..i] == generations;
    SavesStore(files, genkey, generations, content);
    visited := Load(disk, genkey, Content(files, genkey, generations, content));
    FirstWins(genkey, Content(files, genkey, generations, content));
    if LastPutsSmooth(files, genkey, generations) {
      LastSave(files, genkey, generations, content);
    }
  }

  lemma NoSaves(f: Files, genkey: seq<Byte> -> Key, generations: seq<seq<Pair>>)
    ensures AllFit(f, genkey, generations[..0]) && AfterSaves(f, genkey, generations[..0]) == f
  {
  }

  /** There was a save, of a map, and none of the writes of its puts fails. */
  ghost predicate LastPutsSmooth(f: Files, genkey: seq<Byte> -> Key, generations: seq<seq<Pair>>)
    requires AllFit(f, genkey, generations)
  {
    generations != [] &&
    var last := generations[|generations| - 1];
    Functional(last) && Smooth(AfterSaves(f, genkey, generations[..|generations| - 1]), |last|)
  }

  /** The last save decides, together with what a load would have found before it. */
  lemma LastSave(f: Files, genkey: seq<Byte> -> Key, generations: seq<seq<Pair>>, content: seq<Pair>)
    requires AllFit(f, genkey, generations) && LastPutsSmooth(f, genkey, generations)
    ensures
      var (init, last) := (generations[..|generations| - 1], generations[|generations| - 1]);
      var before := Content(f, genkey, init, content);
      var fails := AfterSaves(f, genkey, init).ptr.NextFails();
      var after := Rebuild(VisitOrder(genkey, Content(f, genkey, generations, content)));
      && Content(f, genkey, generations, content) == (if fails then before else []) + last
      && after == Rebuild(last) + (if fails then Rebuild(VisitOrder(genkey, before)) else map[])
      && (after == Rebuild(last) <==> !fails || Agrees(Rebuild(VisitOrder(genkey, before)), Rebuild(last)))
  {
    hide AfterSave, VisitOrder, Rebuild, ContentAfterSave, Agrees, Functional;
    var (init, last) := (generations[..|generations| - 1], generations[|generations| - 1]);
    SmoothSave(AfterSaves(f, genkey, init), genkey, last, Content(f, genkey, init, content));
    RebuiltExactly(AfterSaves(f, genkey, init), genkey, last, Content(f, genkey, init, content));
  }
}
